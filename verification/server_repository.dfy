/**
 * The HTTP server's DynamoDB repository: a fixed-shape `create`, the
 * paginated `findAll`, `findById`, `delete`, and an `update` whose
 * expression uses indexed placeholders `#f0`/`:v0`, `#f1`/`:v1`, ...
 * Every store failure is rethrown with an operation-specific prefix.
 */
module ServerRepository {
  import opened Outcomes
  import opened Js
  import opened Fields
  import opened Dynamo

  /** The attributes `create` writes, and no others. */
  const CreatedAttributes: set<string> :=
    {"id", "name", "brand", "size", "color", "price", "wishlist", "notes", "createdAt", "updatedAt"}

  /** A destructured field with a default: the default replaces `undefined` only. */
  function OrDefault(v: JsVal, default: JsVal): JsVal
  {
    if v == Undef then default else v
  }

  /** The record `create` builds from the request, a fresh id and the two clock readings `createdAt` and `updatedAt`. */
  function NewRecord(itemData: Payload, id: string, createdAt: string, updatedAt: string): Item
  {
    map[
      "id" := Str(id),
      "name" := Get(itemData, "name"),
      "brand" := Get(itemData, "brand"),
      "size" := Get(itemData, "size"),
      "color" := Get(itemData, "color"),
      "price" := Get(itemData, "price"),
      "wishlist" := OrDefault(Get(itemData, "wishlist"), Bool(false)),
      "notes" := OrDefault(Get(itemData, "notes"), Str("")),
      "createdAt" := Str(createdAt),
      "updatedAt" := Str(updatedAt)]
  }

  /**
   * A created record has exactly the ten fixed attributes whatever the
   * request holds: the five catalogue fields are copied as they are, a
   * wishlist or notes that is not `undefined` is kept (even `null`), an
   * absent one becomes `false` or `""`, and a caller-supplied `id` or
   * timestamp never survives.
   */
  lemma NewRecordShape(itemData: Payload, id: string, createdAt: string, updatedAt: string)
    ensures NewRecord(itemData, id, createdAt, updatedAt).Keys == CreatedAttributes
    ensures var rec := NewRecord(itemData, id, createdAt, updatedAt);
      && rec["id"] == Str(id)
      && rec["createdAt"] == Str(createdAt) && rec["updatedAt"] == Str(updatedAt)
      && (forall f :: f in Required ==> rec[f] == Get(itemData, f))
      && (Get(itemData, "wishlist") == Undef ==> rec["wishlist"] == Bool(false))
      && (Get(itemData, "wishlist") != Undef ==> rec["wishlist"] == Get(itemData, "wishlist"))
      && (Get(itemData, "notes") == Undef ==> rec["notes"] == Str(""))
      && (Get(itemData, "notes") != Undef ==> rec["notes"] == Get(itemData, "notes"))
  {
  }

  /** `Object.keys(itemData).filter(k => allowedFields.includes(k) && itemData[k] !== undefined)`. */
  function UpdateFields(itemData: Payload): seq<string>
  {
    if itemData == [] then []
    else
      var (k, v) := itemData[|itemData| - 1];
      UpdateFields(itemData[..|itemData| - 1]) + (if k in Updatable && v != Undef then [k] else [])
  }

  /** A key is kept for the update exactly when it is whitelisted and its value is not `undefined`. */
  lemma {:induction false} UpdateFieldsExact(itemData: Payload)
    requires DistinctKeys(itemData)
    ensures forall k :: k in UpdateFields(itemData) <==> k in Updatable && HasKey(itemData, k) && Get(itemData, k) != Undef
  {
    if itemData != [] {
      var init := itemData[..|itemData| - 1];
      UpdateFieldsExact(init);
      assert Keys(itemData) == Keys(init) + [itemData[|itemData| - 1].0];
      forall k | HasKey(init, k)
        ensures Get(itemData, k) == Get(init, k)
      {
        var i :| 0 <= i < |init| && Keys(init)[i] == k;
        assert itemData[i].0 == k;
      }
      AsMapLookup(init, itemData[|itemData| - 1].0);
    }
  }

  /** The fields to update, each paired with its value in the request. */
  function Entries(fields: seq<string>, itemData: Payload): Payload
  {
    seq(|fields|, i requires 0 <= i < |fields| => (fields[i], Get(itemData, fields[i])))
  }

  /** `#f${idx}` */
  function NameKey(i: nat): string
  {
    "#f" + NatToString(i)
  }

  /** `:v${idx}` */
  function ValueKey(i: nat): string
  {
    ":v" + NatToString(i)
  }

  function NameKeys(n: nat): seq<string>
  {
    seq(n, i requires 0 <= i < n => NameKey(i))
  }

  function ValueKeys(n: nat): seq<string>
  {
    seq(n, i requires 0 <= i < n => ValueKey(i))
  }

  /**
   * Indexed placeholders never clash: different indexes give different
   * names and values, and none of them is an `updatedAt` placeholder.
   */
  lemma IndexedKeysDistinct(a: nat, b: nat)
    ensures a != b ==> NameKey(a) != NameKey(b) && ValueKey(a) != ValueKey(b)
    ensures NameKey(a) != "#updatedAt" && ValueKey(a) != ":updatedAt"
  {
    assert NameKey(a)[1] == 'f' && ValueKey(a)[1] == 'v';
    assert NameKey(a)[2..] == NatToString(a) == ValueKey(a)[2..];
    assert NameKey(b)[2..] == NatToString(b) == ValueKey(b)[2..];
    NatToStringInjective(a, b);
  }

  /** Indexed placeholders are distinct and never the `updatedAt` ones. */
  lemma IndexedKeysUsable(n: nat)
    ensures Distinct(NameKeys(n)) && Distinct(ValueKeys(n))
    ensures "#updatedAt" !in NameKeys(n) && ":updatedAt" !in ValueKeys(n)
  {
    forall i, j | 0 <= i < j < n
      ensures NameKeys(n)[i] != NameKeys(n)[j] && ValueKeys(n)[i] != ValueKeys(n)[j]
    {
      IndexedKeysDistinct(i, j);
    }
    forall i | 0 <= i < n
      ensures NameKeys(n)[i] != "#updatedAt" && ValueKeys(n)[i] != ":updatedAt"
    {
      IndexedKeysDistinct(i, i);
    }
  }

  /**
   * The `forEach` over the kept fields and the `updatedAt` suffix: the i-th
   * field is set through `#f{i}` and `:v{i}`, and `updatedAt` is set last.
   */
  method BuildIndexedUpdate(fields: seq<string>, itemData: Payload, now: string) returns (u: UpdateRequest)
    ensures Encodes(u, Entries(fields, itemData), NameKeys(|fields|), ValueKeys(|fields|), now)
  {
    ghost var entries, namePh, valuePh := Entries(fields, itemData), NameKeys(|fields|), ValueKeys(|fields|);
    var names: map<string, string> := map[];
    var values: map<string, JsVal> := map[":updatedAt" := Str(now)];
    var setParts: seq<(string, string)> := [];
    var idx := 0;
    while idx < |fields|
      invariant 0 <= idx <= |fields|
      invariant names == NamesAfter(entries, namePh, idx)
      invariant values == ValuesAfter(entries, valuePh, now, idx)
      invariant |setParts| == idx
      invariant forall j :: 0 <= j < idx ==> setParts[j] == (namePh[j], valuePh[j])
    {
      var nameKey, valKey := NameKey(idx), ValueKey(idx);
      names := names[nameKey := fields[idx]];
      values := values[valKey := Get(itemData, fields[idx])];
      setParts := setParts + [(nameKey, valKey)];
      idx := idx + 1;
    }
    IndexedKeysUsable(|fields|);
    FinishedEncodes(entries, namePh, valuePh, now, setParts);
    names := names["#updatedAt" := "updatedAt"];
    setParts := setParts + [("#updatedAt", ":updatedAt")];
    u := UpdateRequest(setParts, names, values);
  }

  /** The record after `update(id, itemData)`: the kept fields overwritten, `updatedAt` refreshed. */
  function Updated(rec: Item, itemData: Payload, now: string): Item
  {
    var fields := UpdateFields(itemData);
    (rec + AsMap(Entries(fields, itemData)))["updatedAt" := Str(now)]
  }

  /**
   * An update sets each whitelisted attribute the request supplies (with a
   * value other than `undefined`, but possibly `""` or an invalid price) to
   * the request's value, sets `updatedAt`, and leaves every other attribute
   * (`id`, `createdAt`, unknown keys) as stored.
   */
  lemma UpdatedContents(rec: Item, itemData: Payload, now: string)
    ensures var r := Updated(rec, itemData, now);
      && r.Keys == rec.Keys + (set k | k in UpdateFields(itemData)) + {"updatedAt"}
      && r["updatedAt"] == Str(now)
      && (forall k :: k in UpdateFields(itemData) && k != "updatedAt" ==> r[k] == Get(itemData, k))
      && (forall k :: k in rec && k != "updatedAt" && k !in UpdateFields(itemData) ==> r[k] == rec[k])
  {
    var fields := UpdateFields(itemData);
    var e := Entries(fields, itemData);
    assert Keys(e) == fields;
    forall k
      ensures k in AsMap(e) <==> k in fields
      ensures k in AsMap(e) ==> AsMap(e)[k] == Get(itemData, k)
    {
      AsMapLookup(e, k);
      if k in fields {
        EntriesLookup(fields, itemData, k);
      }
    }
  }

  /** Every entry for `k` carries the request's value for `k`. */
  lemma {:induction false} EntriesLookup(fields: seq<string>, itemData: Payload, k: string)
    requires k in fields
    ensures Get(Entries(fields, itemData), k) == Get(itemData, k)
  {
    var n := |fields|;
    if fields[n - 1] != k {
      assert fields == fields[..n - 1] + [fields[n - 1]];
      assert Entries(fields, itemData)[..n - 1] == Entries(fields[..n - 1], itemData);
      EntriesLookup(fields[..n - 1], itemData, k);
    }
  }

  /** No update touches the key attribute. */
  lemma UpdateKeepsId(rec: Item, itemData: Payload, now: string)
    requires "id" in rec
    ensures "id" in Updated(rec, itemData, now) && Updated(rec, itemData, now)["id"] == rec["id"]
  {
    var fields := UpdateFields(itemData);
    UpdateFieldsWhitelisted(itemData);
    assert Keys(Entries(fields, itemData)) == fields;
    AsMapLookup(Entries(fields, itemData), "id");
  }

  lemma {:induction false} UpdateFieldsWhitelisted(itemData: Payload)
    ensures forall k :: k in UpdateFields(itemData) ==> k in Updatable
  {
    if itemData != [] {
      UpdateFieldsWhitelisted(itemData[..|itemData| - 1]);
    }
  }

  /** The table, keyed by the `id` attribute. */
  class ClothingRepository {
    var items: map<JsVal, Item>

    /** Every record is stored under its own `id`. */
    ghost predicate Valid()
      reads this
    {
      KeyedById(items)
    }

    /** A repository over a table that holds nothing yet. */
    constructor()
      ensures Valid() && items == map[]
    {
      items := map[];
    }

    /**
     * `create(itemData)` with the generated id `uuid` and the two clock
     * readings `createdAt` and `updatedAt` (the clock is read once for each,
     * so they may differ); `fault` is the error the `PutCommand` throws, if any.
     */
    method Create(itemData: Payload, uuid: string, createdAt: string, updatedAt: string, fault: Option<string>) returns (r: Result<Item>)
      requires Valid()
      modifies this
      ensures Valid()
      ensures fault.Some? ==> r == Fail("Error creating clothing item: " + fault.value) && items == old(items)
      ensures fault.None? ==> r == Ok(NewRecord(itemData, uuid, createdAt, updatedAt)) && items == old(items)[Str(uuid) := r.value]
    {
      var item := NewRecord(itemData, uuid, createdAt, updatedAt);
      if fault.Some? {
        return Fail("Error creating clothing item: " + fault.value);
      }
      items := items[Str(uuid) := item];
      return Ok(item);
    }

    /**
     * `findAll({limitPerPage})`: scans from no start key, appends each
     * page's items and resumes from its `LastEvaluatedKey` until a page has
     * none. `fuel` bounds the number of pages the store hands out.
     */
    method FindAll(limitPerPage: Option<nat>, scan: Scanner, ghost fuel: nat) returns (r: Result<seq<Item>>)
      requires Chain(scan, PageLimit(limitPerPage), None, fuel).Some?
      ensures r == Gather(Chain(scan, PageLimit(limitPerPage), None, fuel).value).Annotated("Error scanning clothing table: ")
    {
      var limit := PageLimit(limitPerPage);
      var allItems: seq<Item> := [];
      var exclusiveStartKey: Option<Token> := None;
      ghost var f := fuel;
      ghost var whole := Gather(Chain(scan, limit, None, fuel).value);
      if whole.Ok? {
        assert [] + whole.value == whole.value;
      }
      while true
        invariant Chain(scan, limit, exclusiveStartKey, f).Some?
        invariant Gather(Chain(scan, limit, None, fuel).value) ==
                  Prepend(allItems, Gather(Chain(scan, limit, exclusiveStartKey, f).value))
        decreases f
      {
        var result := scan(limit, exclusiveStartKey);
        ScanStep(scan, limit, exclusiveStartKey, f);
        if result.ScanError? {
          return Fail("Error scanning clothing table: " + result.message);
        }
        if result.lastKey.Some? {
          PrependTwice(allItems, result.items, Gather(Chain(scan, limit, result.lastKey, f - 1).value));
        }
        allItems := allItems + result.items;
        exclusiveStartKey := result.lastKey;
        if exclusiveStartKey.None? {
          return Ok(allItems);
        }
        f := f - 1;
      }
    }

    /**
     * `findById(id)`: no lookup for an empty id; otherwise the stored
     * record, or `null` when there is none.
     */
    function FindById(id: string, fault: Option<string>): (r: Result<Option<Item>>)
      reads this
      ensures id == "" ==> r == Ok(None)
      ensures id != "" && fault.Some? ==> r == Fail("Error getting clothing item by id: " + fault.value)
      ensures id != "" && fault.None? ==>
        && r.Ok?
        && (r.value.Some? ==> Str(id) in items && r.value.value == items[Str(id)])
        && (r.value.None? ==> Str(id) !in items)
    {
      if id == "" then Ok(None)
      else if fault.Some? then Fail("Error getting clothing item by id: " + fault.value)
      else if Str(id) in items then Ok(Some(items[Str(id)]))
      else Ok(None)
    }

    /** `delete(id)`: removes the record and answers with what it was (`ALL_OLD`), or `null`. */
    method Delete(id: string, fault: Option<string>) returns (r: Result<Option<Item>>)
      requires Valid()
      modifies this
      ensures Valid()
      ensures id == "" ==> r == Fail("id is required to delete a clothing item") && items == old(items)
      ensures id != "" && fault.Some? ==>
        r == Fail("Error deleting clothing item with id " + id + ": " + fault.value) && items == old(items)
      ensures id != "" && fault.None? ==>
        && r == Ok(if Str(id) in old(items) then Some(old(items)[Str(id)]) else None)
        && items == old(items) - {Str(id)}
    {
      if id == "" {
        return Fail("id is required to delete a clothing item");
      }
      if fault.Some? {
        return Fail("Error deleting clothing item with id " + id + ": " + fault.value);
      }
      var prior := if Str(id) in items then Some(items[Str(id)]) else None;
      items := items - {Str(id)};
      return Ok(prior);
    }

    /**
     * `update(id, itemData)`: the guards, then one `UpdateCommand` built
     * by `BuildIndexedUpdate`, answering with the new record (`ALL_NEW`).
     */
    method Update(id: string, itemData: Payload, now: string, fault: Option<string>) returns (r: Result<Item>)
      requires Valid()
      requires DistinctKeys(itemData)
      modifies this
      ensures Valid()
      ensures id == "" ==> r == Fail("id is required to update a clothing item") && items == old(items)
      ensures id != "" && UpdateFields(itemData) == [] ==>
        r == Fail("No valid fields provided for update") && items == old(items)
      ensures id != "" && UpdateFields(itemData) != [] && fault.Some? ==>
        r == Fail("Error updating clothing item with id " + id + ": " + fault.value) && items == old(items)
      ensures id != "" && UpdateFields(itemData) != [] && fault.None? ==>
        && r == Ok(Updated(Stored(old(items), Str(id)), itemData, now))
        && items == old(items)[Str(id) := r.value]
    {
      if id == "" {
        return Fail("id is required to update a clothing item");
      }
      var fields := UpdateFields(itemData);
      if |fields| == 0 {
        return Fail("No valid fields provided for update");
      }
      var u := BuildIndexedUpdate(fields, itemData, now);
      if fault.Some? {
        return Fail("Error updating clothing item with id " + id + ": " + fault.value);
      }
      var rec := Stored(items, Str(id));
      ApplyEncoded(rec, u, Entries(fields, itemData), NameKeys(|fields|), ValueKeys(|fields|), now);
      var next := ApplyUpdate(rec, u);
      UpdateKeepsId(rec, itemData, now);
      assert next == Updated(rec, itemData, now);
      PutKeepsKeyed(items, next);
      items := items[Str(id) := next];
      return Ok(next);
    }
  }
}
