/** Product variants: rows whose normalised columns are derived from their text
    on the way in, written by full saves and by guarded bulk operations. */
module Variants {
  import opened Prelude
  import opened Normalization

  type Pk = nat
  type ProductId = nat
  type StoreId = nat

  datatype Cell = CText(text: string) | CNumber(number: nat) | CFlag(flag: bool)

  datatype Row = Row(
    product: ProductId, store: StoreId, attribute: string, value: string,
    normalizedAttribute: string, normalizedValue: string, sku: string,
    isActive: bool, extra: map<string, Cell>)

  datatype WriteError = VariantMutation | Integrity | NoSuchProduct | NoSuchRow

  const SENSITIVE_FIELDS := {
    "attribute", "value", "sku", "normalized_attribute", "normalized_value",
    "store", "store_id", "product", "product_id"
  }

  // ---- Columns by name ----

  function TextIn(changes: map<string, Cell>, name: string, current: string): string {
    if name in changes && changes[name].CText? then changes[name].text else current
  }

  function NumberIn(changes: map<string, Cell>, name: string, current: nat): nat {
    if name in changes && changes[name].CNumber? then changes[name].number else current
  }

  // The row after an UPDATE that sets the named columns.
  function Assign(r: Row, changes: map<string, Cell>): Row {
    Row(
      NumberIn(changes, "product", NumberIn(changes, "product_id", r.product)),
      NumberIn(changes, "store", NumberIn(changes, "store_id", r.store)),
      TextIn(changes, "attribute", r.attribute), TextIn(changes, "value", r.value),
      TextIn(changes, "normalized_attribute", r.normalizedAttribute),
      TextIn(changes, "normalized_value", r.normalizedValue),
      TextIn(changes, "sku", r.sku),
      if "is_active" in changes && changes["is_active"].CFlag? then changes["is_active"].flag else r.isActive,
      r.extra + map name | name in changes && name !in SENSITIVE_FIELDS && name != "is_active" :: changes[name])
  }

  // The values of an instance, by column name.
  function Columns(r: Row): map<string, Cell> {
    r.extra + map[
      "product" := CNumber(r.product), "product_id" := CNumber(r.product),
      "store" := CNumber(r.store), "store_id" := CNumber(r.store),
      "attribute" := CText(r.attribute), "value" := CText(r.value),
      "normalized_attribute" := CText(r.normalizedAttribute), "normalized_value" := CText(r.normalizedValue),
      "sku" := CText(r.sku), "is_active" := CFlag(r.isActive)]
  }

  // The row after writing only `fields` of an instance.
  function WriteFields(r: Row, instance: Row, fields: set<string>): Row {
    Assign(r, map name | name in fields && name in Columns(instance) :: Columns(instance)[name])
  }

  // ---- Normalisation and constraints ----

  function Normalized(lower: Lower, r: Row, store: StoreId): Row {
    var attribute, value := Strip(r.attribute), Strip(r.value);
    r.(attribute := attribute, value := value,
       normalizedAttribute := NormalizationKey(lower, Some(attribute)),
       normalizedValue := NormalizationKey(lower, Some(value)),
       sku := Strip(NormalizeDigits(Some(r.sku))), store := store)
  }

  predicate Unique(rows: map<Pk, Row>) {
    && (forall a, b | a in rows && b in rows && a != b && rows[a].isActive && rows[b].isActive
          :: (rows[a].product, rows[a].normalizedAttribute, rows[a].normalizedValue)
             != (rows[b].product, rows[b].normalizedAttribute, rows[b].normalizedValue))
    && (forall a, b | a in rows && b in rows && a != b && rows[a].sku != ""
          :: (rows[a].store, rows[a].sku) != (rows[b].store, rows[b].sku))
  }

  // ---- What each write does to the table; None when it is refused ----

  datatype Write =
    | Save(pk: Pk, instance: Row)
    | PartialSave(pk: Pk, instance: Row, fields: set<string>)
    | BulkCreate(instances: map<Pk, Row>)
    | Update(pks: set<Pk>, changes: map<string, Cell>)
    | BulkUpdate(instances: map<Pk, Row>, fields: set<string>)

  function Checked(rows: map<Pk, Row>): Result<map<Pk, Row>, WriteError> {
    if Unique(rows) then Ok(rows) else Err(Integrity)
  }

  function Inserted(rows: map<Pk, Row>, added: map<Pk, Row>): Result<map<Pk, Row>, WriteError> {
    if added.Keys * rows.Keys == {} then Checked(rows + added) else Err(Integrity)
  }

  predicate KnownProducts(products: map<ProductId, StoreId>, instances: map<Pk, Row>) {
    forall pk :: pk in instances ==> instances[pk].product in products
  }

  function AllNormalized(lower: Lower, products: map<ProductId, StoreId>, instances: map<Pk, Row>): map<Pk, Row>
    requires KnownProducts(products, instances)
  {
    map pk | pk in instances :: Normalized(lower, instances[pk], products[instances[pk].product])
  }

  function Effect(lower: Lower, products: map<ProductId, StoreId>, rows: map<Pk, Row>, w: Write): Result<map<Pk, Row>, WriteError> {
    match w
    case Save(pk, instance) =>
      if instance.product !in products then Err(NoSuchProduct)
      else Checked(rows[pk := Normalized(lower, instance, products[instance.product])])
    case PartialSave(pk, instance, fields) =>
      if instance.product !in products then Err(NoSuchProduct)
      else if fields == {} then Ok(rows)
      else if pk !in rows then Err(NoSuchRow)
      else Checked(rows[pk := WriteFields(rows[pk], Normalized(lower, instance, products[instance.product]), fields)])
    case BulkCreate(instances) =>
      if !KnownProducts(products, instances) then Err(NoSuchProduct)
      else Inserted(rows, AllNormalized(lower, products, instances))
    case Update(pks, changes) =>
      if changes.Keys !! SENSITIVE_FIELDS
      then Checked(map pk | pk in rows :: if pk in pks then Assign(rows[pk], changes) else rows[pk])
      else Err(VariantMutation)
    case BulkUpdate(instances, fields) =>
      if fields !! SENSITIVE_FIELDS
      then Checked(map pk | pk in rows :: if pk in instances then WriteFields(rows[pk], instances[pk], fields) else rows[pk])
      else Err(VariantMutation)
  }

  // ---- What every reachable table satisfies ----

  predicate Agrees(lower: Lower, products: map<ProductId, StoreId>, r: Row) {
    && r.product in products && r.store == products[r.product]
    && r.normalizedAttribute == NormalizationKey(lower, Some(r.attribute))
    && r.normalizedValue == NormalizationKey(lower, Some(r.value))
  }

  ghost predicate Consistent(lower: Lower, products: map<ProductId, StoreId>, rows: map<Pk, Row>) {
    AllAgree(lower, products, rows) && Unique(rows)
  }

  lemma HarmlessAssign(r: Row, changes: map<string, Cell>)
    requires changes.Keys !! SENSITIVE_FIELDS
    ensures Assign(r, changes) == r.(isActive := Assign(r, changes).isActive, extra := Assign(r, changes).extra)
  {
    assert forall name :: name in SENSITIVE_FIELDS ==> name !in changes;
    assert "product" in SENSITIVE_FIELDS && "product_id" in SENSITIVE_FIELDS && "store" in SENSITIVE_FIELDS
           && "store_id" in SENSITIVE_FIELDS && "attribute" in SENSITIVE_FIELDS && "value" in SENSITIVE_FIELDS
           && "normalized_attribute" in SENSITIVE_FIELDS && "normalized_value" in SENSITIVE_FIELDS && "sku" in SENSITIVE_FIELDS;
  }

  lemma NormalizedAgrees(lower: Lower, products: map<ProductId, StoreId>, r: Row)
    requires r.product in products
    ensures Agrees(lower, products, Normalized(lower, r, products[r.product]))
  {}

  ghost predicate AllAgree(lower: Lower, products: map<ProductId, StoreId>, rows: map<Pk, Row>) {
    forall pk :: pk in rows ==> Agrees(lower, products, rows[pk])
  }

  lemma InsertKeepsAgreement(lower: Lower, products: map<ProductId, StoreId>, rows: map<Pk, Row>, instances: map<Pk, Row>)
    requires AllAgree(lower, products, rows) && KnownProducts(products, instances)
    ensures AllAgree(lower, products, rows + AllNormalized(lower, products, instances))
  {
    forall pk | pk in instances
      ensures Agrees(lower, products, Normalized(lower, instances[pk], products[instances[pk].product]))
    {
      NormalizedAgrees(lower, products, instances[pk]);
    }
  }

  lemma AssignKeepsAgreement(lower: Lower, products: map<ProductId, StoreId>, r: Row, changes: map<string, Cell>)
    requires Agrees(lower, products, r) && changes.Keys !! SENSITIVE_FIELDS
    ensures Agrees(lower, products, Assign(r, changes))
  {
    HarmlessAssign(r, changes);
  }

  // A foreign key may be named with or without its suffix.
  predicate Names(fields: set<string>, key: string) {
    key in fields || key + "_id" in fields
  }

  /** A save limited to `fields` normalises the instance but writes only those
      columns: a derived column still follows its text, and the store its product,
      exactly when both or neither of the pair are written, or the old and the
      new one derive the same anyway. */
  lemma PartialSaveAgreesIff(lower: Lower, products: map<ProductId, StoreId>, r: Row, instance: Row, fields: set<string>)
    requires Agrees(lower, products, r) && instance.product in products
    ensures var after := WriteFields(r, Normalized(lower, instance, products[instance.product]), fields);
            after.normalizedAttribute == NormalizationKey(lower, Some(after.attribute)) <==>
            || ("attribute" in fields <==> "normalized_attribute" in fields)
            || NormalizationKey(lower, Some(instance.attribute)) == NormalizationKey(lower, Some(r.attribute))
    ensures var after := WriteFields(r, Normalized(lower, instance, products[instance.product]), fields);
            after.normalizedValue == NormalizationKey(lower, Some(after.value)) <==>
            || ("value" in fields <==> "normalized_value" in fields)
            || NormalizationKey(lower, Some(instance.value)) == NormalizationKey(lower, Some(r.value))
    ensures var after := WriteFields(r, Normalized(lower, instance, products[instance.product]), fields);
            after.product in products && (after.store == products[after.product] <==>
            || (Names(fields, "product") <==> Names(fields, "store"))
            || products[instance.product] == products[r.product])
  {
    var normal := Normalized(lower, instance, products[instance.product]);
    KeyOfStrip(lower, instance.attribute);
    KeyOfStrip(lower, instance.value);
    PartialSaveColumns(r, normal, fields);
  }

  lemma PartialSaveColumns(r: Row, instance: Row, fields: set<string>)
    ensures var after := WriteFields(r, instance, fields);
            && after.attribute == (if "attribute" in fields then instance.attribute else r.attribute)
            && after.normalizedAttribute ==
                 (if "normalized_attribute" in fields then instance.normalizedAttribute else r.normalizedAttribute)
            && after.value == (if "value" in fields then instance.value else r.value)
            && after.normalizedValue ==
                 (if "normalized_value" in fields then instance.normalizedValue else r.normalizedValue)
            && after.product == (if Names(fields, "product") then instance.product else r.product)
            && after.store == (if Names(fields, "store") then instance.store else r.store)
            && after.sku == (if "sku" in fields then instance.sku else r.sku)
            && after.isActive == (if "is_active" in fields then instance.isActive else r.isActive)
  {
    var columns := Columns(instance);
    assert columns["attribute"] == CText(instance.attribute);
    assert columns["normalized_attribute"] == CText(instance.normalizedAttribute);
    assert columns["value"] == CText(instance.value);
    assert columns["normalized_value"] == CText(instance.normalizedValue);
    assert columns["sku"] == CText(instance.sku) && columns["is_active"] == CFlag(instance.isActive);
    assert "product" + "_id" == "product_id" && "store" + "_id" == "store_id";
    assert columns["product"] == columns["product_id"] == CNumber(instance.product);
    assert columns["store"] == columns["store_id"] == CNumber(instance.store);
  }

  // Both or neither of each pair are saved, or the pair agrees anyway.
  predicate KeepsPairs(lower: Lower, products: map<ProductId, StoreId>, r: Row, instance: Row, fields: set<string>)
    requires r.product in products && instance.product in products
  {
    && (|| ("attribute" in fields <==> "normalized_attribute" in fields)
        || NormalizationKey(lower, Some(instance.attribute)) == NormalizationKey(lower, Some(r.attribute)))
    && (|| ("value" in fields <==> "normalized_value" in fields)
        || NormalizationKey(lower, Some(instance.value)) == NormalizationKey(lower, Some(r.value)))
    && (|| (Names(fields, "product") <==> Names(fields, "store"))
        || products[instance.product] == products[r.product])
  }

  // Every write is careful, but a save limited to some columns must be.
  ghost predicate IsCareful(lower: Lower, products: map<ProductId, StoreId>, rows: map<Pk, Row>, w: Write)
    requires AllAgree(lower, products, rows)
  {
    w.PartialSave? && w.pk in rows && w.instance.product in products ==>
      KeepsPairs(lower, products, rows[w.pk], w.instance, w.fields)
  }

  lemma PartialSaveKeepsIff(lower: Lower, products: map<ProductId, StoreId>, rows: map<Pk, Row>, w: Write)
    requires Consistent(lower, products, rows) && Effect(lower, products, rows, w).Ok? && w.PartialSave?
    ensures Consistent(lower, products, Effect(lower, products, rows, w).value) <==> IsCareful(lower, products, rows, w)
  {
    if w.fields != {} {
      PartialRowAgreesIff(lower, products, rows[w.pk], w.instance, w.fields);
      var row := WriteFields(rows[w.pk], Normalized(lower, w.instance, products[w.instance.product]), w.fields);
      OneRowDecides(lower, products, rows, w.pk, row);
      assert Effect(lower, products, rows, w) == Checked(rows[w.pk := row]);
    }
  }

  lemma OneRowDecides(lower: Lower, products: map<ProductId, StoreId>, rows: map<Pk, Row>, pk: Pk, row: Row)
    requires AllAgree(lower, products, rows)
    ensures AllAgree(lower, products, rows[pk := row]) <==> Agrees(lower, products, row)
  {
    assert rows[pk := row][pk] == row;
  }

  lemma PartialRowAgreesIff(lower: Lower, products: map<ProductId, StoreId>, r: Row, instance: Row, fields: set<string>)
    requires Agrees(lower, products, r) && instance.product in products
    ensures Agrees(lower, products, WriteFields(r, Normalized(lower, instance, products[instance.product]), fields))
            <==> KeepsPairs(lower, products, r, instance, fields)
  {
    PartialSaveAgreesIff(lower, products, r, instance, fields);
  }

  /** An accepted write keeps every derived column and both constraints, exactly
      when it is not a save limited to columns that come apart. */
  lemma WriteKeepsConsistentIff(lower: Lower, products: map<ProductId, StoreId>, rows: map<Pk, Row>, w: Write)
    requires Consistent(lower, products, rows) && Effect(lower, products, rows, w).Ok?
    ensures Consistent(lower, products, Effect(lower, products, rows, w).value) <==> IsCareful(lower, products, rows, w)
  {
    if w.PartialSave? {
      PartialSaveKeepsIff(lower, products, rows, w);
    } else {
      WriteKeepsConsistent(lower, products, rows, w);
    }
  }

  lemma WriteKeepsConsistent(lower: Lower, products: map<ProductId, StoreId>, rows: map<Pk, Row>, w: Write)
    requires Consistent(lower, products, rows) && Effect(lower, products, rows, w).Ok? && !w.PartialSave?
    ensures Consistent(lower, products, Effect(lower, products, rows, w).value)
  {
    match w
    case Save(pk, instance) =>
      NormalizedAgrees(lower, products, instance);
    case BulkCreate(instances) =>
      InsertKeepsAgreement(lower, products, rows, instances);
    case Update(pks, changes) =>
      forall pk | pk in rows ensures Agrees(lower, products, Assign(rows[pk], changes)) {
        AssignKeepsAgreement(lower, products, rows[pk], changes);
      }
    case BulkUpdate(instances, fields) =>
      forall pk | pk in rows && pk in instances
        ensures Agrees(lower, products, WriteFields(rows[pk], instances[pk], fields))
      {
        var columns := Columns(instances[pk]);
        AssignKeepsAgreement(lower, products, rows[pk], map name | name in fields && name in columns :: columns[name]);
      }
  }

  function After(lower: Lower, products: map<ProductId, StoreId>, rows: map<Pk, Row>, writes: seq<Write>): map<Pk, Row>
    decreases |writes|
  {
    if writes == [] then rows
    else
      var result := Effect(lower, products, rows, writes[0]);
      After(lower, products, if result.Ok? then result.value else rows, writes[1..])
  }

  // Every partial save of the run is careful with the row it finds.
  ghost predicate IsCarefulRun(lower: Lower, products: map<ProductId, StoreId>, rows: map<Pk, Row>, writes: seq<Write>)
    decreases |writes|
  {
    writes != [] && AllAgree(lower, products, rows) ==>
      var result := Effect(lower, products, rows, writes[0]);
      (result.Ok? ==> IsCareful(lower, products, rows, writes[0]))
      && IsCarefulRun(lower, products, if result.Ok? then result.value else rows, writes[1..])
  }

  /** Whatever is written, accepted or refused, in any order: the derived columns
      follow the text, the store follows the product, and the constraints hold, as
      long as saves limited to some columns keep the pairs together. */
  lemma {:induction false} RunKeepsConsistent(lower: Lower, products: map<ProductId, StoreId>, rows: map<Pk, Row>, writes: seq<Write>)
    requires Consistent(lower, products, rows) && IsCarefulRun(lower, products, rows, writes)
    ensures Consistent(lower, products, After(lower, products, rows, writes))
    decreases |writes|
  {
    if writes != [] {
      var result := Effect(lower, products, rows, writes[0]);
      if result.Ok? {
        WriteKeepsConsistentIff(lower, products, rows, writes[0]);
      }
      RunKeepsConsistent(lower, products, if result.Ok? then result.value else rows, writes[1..]);
    }
  }

  ghost predicate StaysConsistent(lower: Lower, products: map<ProductId, StoreId>, rows: map<Pk, Row>, writes: seq<Write>)
    decreases |writes|
  {
    && Consistent(lower, products, rows)
    && (writes != [] ==>
          var result := Effect(lower, products, rows, writes[0]);
          StaysConsistent(lower, products, if result.Ok? then result.value else rows, writes[1..]))
  }

  /** All tables of a run are consistent exactly when every save limited to some
      columns that is accepted keeps the pairs together. */
  lemma {:induction false} RunStaysConsistentIff(lower: Lower, products: map<ProductId, StoreId>, rows: map<Pk, Row>, writes: seq<Write>)
    requires Consistent(lower, products, rows)
    ensures StaysConsistent(lower, products, rows, writes) <==> IsCarefulRun(lower, products, rows, writes)
    decreases |writes|
  {
    if writes != [] {
      var result := Effect(lower, products, rows, writes[0]);
      var next := if result.Ok? then result.value else rows;
      if result.Ok? {
        WriteKeepsConsistentIff(lower, products, rows, writes[0]);
      }
      if Consistent(lower, products, next) {
        RunStaysConsistentIff(lower, products, next, writes[1..]);
      }
    }
  }

  // A partial save that names none of the paired columns is always careful, and
  // so is every other write: then the whole run is.
  lemma {:induction false} UnpairedRunIsCareful(lower: Lower, products: map<ProductId, StoreId>, rows: map<Pk, Row>, writes: seq<Write>)
    requires Consistent(lower, products, rows)
    requires forall w :: w in writes && w.PartialSave? ==> w.fields !! SENSITIVE_FIELDS
    ensures IsCarefulRun(lower, products, rows, writes)
    decreases |writes|
  {
    if writes != [] {
      var w := writes[0];
      assert w in writes;
      if w.PartialSave? { UnpairedFields(w.fields); }
      var result := Effect(lower, products, rows, w);
      if result.Ok? {
        WriteKeepsConsistentIff(lower, products, rows, w);
      }
      UnpairedRunIsCareful(lower, products, if result.Ok? then result.value else rows, writes[1..]);
    }
  }

  lemma UnpairedFields(fields: set<string>)
    requires fields !! SENSITIVE_FIELDS
    ensures "attribute" !in fields && "normalized_attribute" !in fields && "value" !in fields && "normalized_value" !in fields
    ensures !Names(fields, "product") && !Names(fields, "store")
  {
    assert forall name :: name in SENSITIVE_FIELDS ==> name !in fields;
    assert "attribute" in SENSITIVE_FIELDS && "normalized_attribute" in SENSITIVE_FIELDS && "value" in SENSITIVE_FIELDS
           && "normalized_value" in SENSITIVE_FIELDS && "product" in SENSITIVE_FIELDS && "store" in SENSITIVE_FIELDS;
    assert "product" + "_id" == "product_id" && "store" + "_id" == "store_id";
    assert "product_id" in SENSITIVE_FIELDS && "store_id" in SENSITIVE_FIELDS;
  }

  /** Two active variants of one product are never the same option written
      differently: their attribute or their value differ in some word beyond
      digit script, Arabic letters, spacing and case. */
  lemma NoTwins(lower: Lower, products: map<ProductId, StoreId>, writes: seq<Write>, a: Pk, b: Pk)
    requires IsCarefulRun(lower, products, map[], writes)
    requires var rows := After(lower, products, map[], writes);
             && a in rows && b in rows && a != b && rows[a].isActive && rows[b].isActive
             && rows[a].product == rows[b].product
    ensures var rows := After(lower, products, map[], writes);
            || KeyWords(lower, rows[a].attribute) != KeyWords(lower, rows[b].attribute)
            || KeyWords(lower, rows[a].value) != KeyWords(lower, rows[b].value)
  {
    RunKeepsConsistent(lower, products, map[], writes);
    var rows := After(lower, products, map[], writes);
    SameKeyIff(lower, rows[a].attribute, rows[b].attribute);
    SameKeyIff(lower, rows[a].value, rows[b].value);
  }

  /** No two variants of a store, active or not, share a stock number. */
  lemma NoSharedSku(lower: Lower, products: map<ProductId, StoreId>, writes: seq<Write>, a: Pk, b: Pk)
    requires IsCarefulRun(lower, products, map[], writes)
    requires var rows := After(lower, products, map[], writes); a in rows && b in rows && a != b
    ensures var rows := After(lower, products, map[], writes);
            && rows[a].product in products && rows[b].product in products
            && (rows[a].sku != "" && products[rows[a].product] == products[rows[b].product] ==> rows[a].sku != rows[b].sku)
  {
    RunKeepsConsistent(lower, products, map[], writes);
  }

  /** The normal form, column by column: the text columns are trimmed, the keys
      are those of the text as given, the stock number has its digits in ASCII and
      no whitespace around it, the store is the product's, the rest is kept. */
  lemma NormalizedColumns(lower: Lower, r: Row, store: StoreId) returns (left: string, right: string)
    ensures var n := Normalized(lower, r, store);
            && n.product == r.product && n.isActive == r.isActive && n.extra == r.extra && n.store == store
            && n.attribute == Strip(r.attribute) && n.value == Strip(r.value)
            && n.normalizedAttribute == NormalizationKey(lower, Some(r.attribute))
            && n.normalizedValue == NormalizationKey(lower, Some(r.value))
            && NormalizeDigits(Some(r.sku)) == left + n.sku + right
            && (forall c :: c in left + right ==> IsSpace(c))
            && (n.sku != "" ==> !IsSpace(n.sku[0]) && !IsSpace(n.sku[|n.sku| - 1]))
  {
    KeyOfStrip(lower, r.attribute);
    KeyOfStrip(lower, r.value);
    left, right := StripIsTrim(NormalizeDigits(Some(r.sku)));
  }

  // ---- What a guarded write does to one row ----

  predicate IsSensitive(name: string) {
    name in {"attribute", "value", "sku", "normalized_attribute", "normalized_value", "store", "store_id", "product", "product_id"}
  }

  // The row has the given values in the named columns and the old ones elsewhere.
  ghost predicate IsUpdated(was: Row, changes: map<string, Cell>, now: Row) {
    && now == was.(isActive := now.isActive, extra := now.extra)
    && now.isActive == (if "is_active" in changes && changes["is_active"].CFlag? then changes["is_active"].flag else was.isActive)
    && now.extra.Keys == was.extra.Keys + (changes.Keys - {"is_active"})
    && (forall name :: name in changes && name != "is_active" ==> now.extra[name] == changes[name])
    && (forall name :: name in was.extra && name !in changes ==> now.extra[name] == was.extra[name])
    && ("is_active" in was.extra ==> now.extra["is_active"] == was.extra["is_active"])
  }

  lemma AssignUpdates(was: Row, changes: map<string, Cell>)
    requires forall name :: name in changes ==> !IsSensitive(name)
    ensures changes.Keys !! SENSITIVE_FIELDS && IsUpdated(was, changes, Assign(was, changes))
  {
    assert forall name :: name in changes ==> name !in SENSITIVE_FIELDS;
    HarmlessAssign(was, changes);
  }

  // The same, from an instance that has the values.
  ghost predicate IsUpdatedFrom(was: Row, instance: Row, fields: set<string>, now: Row) {
    && now == was.(isActive := now.isActive, extra := now.extra)
    && now.isActive == (if "is_active" in fields then instance.isActive else was.isActive)
    && now.extra.Keys == was.extra.Keys + (fields * instance.extra.Keys - {"is_active"})
    && (forall name :: name in fields && name in instance.extra && name != "is_active" ==> now.extra[name] == instance.extra[name])
    && (forall name :: name in was.extra && !(name in fields && name in instance.extra) ==> now.extra[name] == was.extra[name])
  }

  lemma ColumnsOfInstance(instance: Row, name: string)
    requires !IsSensitive(name)
    ensures name in Columns(instance) <==> name == "is_active" || name in instance.extra
    ensures name in Columns(instance) ==>
              Columns(instance)[name] == if name == "is_active" then CFlag(instance.isActive) else instance.extra[name]
  {}

  lemma WriteFieldsUpdates(was: Row, instance: Row, fields: set<string>)
    requires forall name :: name in fields ==> !IsSensitive(name)
    ensures fields !! SENSITIVE_FIELDS && IsUpdatedFrom(was, instance, fields, WriteFields(was, instance, fields))
  {
    assert forall name :: name in fields ==> name !in SENSITIVE_FIELDS;
    var columns := Columns(instance);
    var changes := map name | name in fields && name in columns :: columns[name];
    forall name | name in fields
      ensures name in columns <==> name == "is_active" || name in instance.extra
      ensures name in columns ==> columns[name] == if name == "is_active" then CFlag(instance.isActive) else instance.extra[name]
    {
      ColumnsOfInstance(instance, name);
    }
    AssignUpdates(was, changes);
  }

  // Saving a new value alone leaves the key of the old one.
  lemma PartialSaveSplitsKey(lower: Lower) returns (r: Row, instance: Row, after: Row)
    ensures Agrees(lower, map[1 := 1], r)
    ensures after == WriteFields(r, Normalized(lower, instance, 1), {"value"})
    ensures after.value == "1" && after.normalizedValue == ""
    ensures after.normalizedValue != NormalizationKey(lower, Some(after.value))
  {
    var products: map<ProductId, StoreId> := map[1 := 1];
    r := Normalized(lower, Row(1, 1, "", "", "", "", "", true, map[]), 1);
    instance := r.(value := "1");
    NormalizedAgrees(lower, products, Row(1, 1, "", "", "", "", "", true, map[]));
    KeyIsKeyWords(lower, "1");
    KeyIsKeyWords(lower, "");
    assert FirstWord("1") == "1" && "1"[1..] == "";
    assert Words("1") == ["1"];
    assert KeyWords(lower, "1") != [];
    assert NormalizationKey(lower, Some("1")) != "";
    assert Strip("") == "" && Strip("1") == "1";
    after := WriteFields(r, Normalized(lower, instance, 1), {"value"});
    PartialSaveColumns(r, Normalized(lower, instance, 1), {"value"});
  }
}
