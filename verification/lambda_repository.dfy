/**
 * The serverless functions' DynamoDB repository. Unlike the HTTP server's,
 * it sanitises what it writes: empty and `undefined` values are dropped,
 * the price is coerced to a non-negative finite number or dropped, and the
 * wishlist flag is coerced to a boolean. `create` keeps every other key;
 * `update` keeps only whitelisted ones and names them `#key`/`:key` in the
 * update expression. Store failures propagate unchanged.
 */
module LambdaRepository {
  import opened Outcomes
  import opened Js
  import opened Fields
  import opened Dynamo

  /**
   * The flag a non-boolean wishlist value stands for: true exactly when its
   * lowercased text is "true" or its text is "1" (so the number 1 counts,
   * `null` does not).
   */
  predicate WishlistFlag(v: JsVal)
  {
    match v
    case Bool(b) => b
    case Str(s) => AsciiLower(s) == "true" || s == "1"
    case Num(n) => n == Finite(1.0)
    case Null => false
    case Undef => false
  }

  /**
   * What one entry of the request is stored as, or `None` when the sanitiser
   * drops it. Assigning to `__proto__` on a plain object goes through the
   * prototype setter and never makes an own key, so the spread of the
   * sanitised object never carries one.
   */
  function Coerce(key: string, val: JsVal, parseNumber: NumberParser): Option<JsVal>
  {
    if val == Str("") || val == Undef then None
    else if key == "__proto__" then None
    else if key == "price" then
      var num := ToNumber(val, parseNumber);
      if num.Finite? && num.r >= 0.0 then Some(Num(num)) else None
    else if key == "wishlist" then Some(Bool(WishlistFlag(val)))
    else Some(val)
  }

  /**
   * The coercion rules: `""` and `undefined` are always dropped; a price is
   * kept only as a finite number of at least 0 (a numeric string becomes
   * that number, `null` becomes 0, a negative number, an infinity or a
   * non-numeric string is dropped); a wishlist always becomes a boolean;
   * a `__proto__` key never survives; anything else is kept verbatim.
   */
  lemma CoercionRules(key: string, val: JsVal, parseNumber: NumberParser)
    ensures val == Str("") || val == Undef ==> Coerce(key, val, parseNumber) == None
    ensures key == "price" && Coerce(key, val, parseNumber).Some? ==>
      && Coerce(key, val, parseNumber).value == Num(ToNumber(val, parseNumber))
      && ToNumber(val, parseNumber).Finite? && ToNumber(val, parseNumber).r >= 0.0
    ensures key == "price" && val != Str("") && val != Undef ==>
      (Coerce(key, val, parseNumber).None? <==> !ToNumber(val, parseNumber).Finite? || ToNumber(val, parseNumber).r < 0.0)
    ensures key == "wishlist" && val != Str("") && val != Undef ==> Coerce(key, val, parseNumber) == Some(Bool(WishlistFlag(val)))
    ensures key != "price" && key != "wishlist" && key != "__proto__" && val != Str("") && val != Undef ==>
      Coerce(key, val, parseNumber) == Some(val)
    ensures Coerce("__proto__", val, parseNumber) == None
    ensures Coerce("price", Null, parseNumber) == Some(Num(Finite(0.0)))
    ensures Coerce("price", Num(Finite(-1.0)), parseNumber) == None
    ensures Coerce("price", Num(PosInf), parseNumber) == None
    ensures parseNumber("5") == Finite(5.0) ==> Coerce("price", Str("5"), parseNumber) == Some(Num(Finite(5.0)))
    ensures parseNumber("abc") == NaN ==> Coerce("price", Str("abc"), parseNumber) == None
  {
  }

  /** How the wishlist flag reads common inputs: case-insensitive "true", "1" and 1 are true; "yes", "0", null are false. */
  lemma WishlistExamples()
    ensures WishlistFlag(Str("TRUE")) && WishlistFlag(Str("True")) && WishlistFlag(Str("1")) && WishlistFlag(Num(Finite(1.0)))
    ensures !WishlistFlag(Str("yes")) && !WishlistFlag(Str("0")) && !WishlistFlag(Null) && !WishlistFlag(Str("1.0"))
    ensures WishlistFlag(Bool(true)) && !WishlistFlag(Bool(false))
  {
    assert AsciiLower("TRUE") == "true";
    assert AsciiLower("True") == "true";
    assert AsciiLower("yes") == "yes";
    assert AsciiLower("1.0") != "true";
  }

  /** Whether a key passes the whitelist; `None` is no whitelist at all. */
  predicate Admitted(whitelist: Option<seq<string>>, key: string)
  {
    whitelist.None? || key in whitelist.value
  }

  /** `cleanData`: the admitted entries that survive coercion, in the request's key order. */
  function Clean(p: Payload, whitelist: Option<seq<string>>, parseNumber: NumberParser): Payload
  {
    if p == [] then []
    else
      var (key, val) := p[|p| - 1];
      var kept := if Admitted(whitelist, key) then Coerce(key, val, parseNumber) else None;
      Clean(p[..|p| - 1], whitelist, parseNumber) + (if kept.Some? then [(key, kept.value)] else [])
  }

  /**
   * The sanitiser's loop: walks the request's entries in order and adds
   * each admitted entry that survives coercion.
   */
  method Sanitize(p: Payload, whitelist: Option<seq<string>>, parseNumber: NumberParser) returns (clean: Payload)
    ensures clean == Clean(p, whitelist, parseNumber)
  {
    clean := [];
    var i := 0;
    while i < |p|
      invariant 0 <= i <= |p|
      invariant clean == Clean(p[..i], whitelist, parseNumber)
    {
      var (key, val) := p[i];
      assert p[..i + 1][..i] == p[..i];
      if Admitted(whitelist, key) {
        var kept := Coerce(key, val, parseNumber);
        if kept.Some? {
          clean := clean + [(key, kept.value)];
        }
      }
      i := i + 1;
    }
    assert p[..|p|] == p;
  }

  /**
   * A key is in the sanitised object exactly when it is admitted and the
   * request's value for it survives coercion, and then it holds the coerced
   * value.
   */
  lemma {:induction false} CleanLookup(p: Payload, whitelist: Option<seq<string>>, parseNumber: NumberParser, k: string)
    requires DistinctKeys(p)
    ensures HasKey(Clean(p, whitelist, parseNumber), k) <==> Admitted(whitelist, k) && Coerce(k, Get(p, k), parseNumber).Some?
    ensures HasKey(Clean(p, whitelist, parseNumber), k) ==>
      Get(Clean(p, whitelist, parseNumber), k) == Coerce(k, Get(p, k), parseNumber).value
  {
    if p != [] {
      var init := p[..|p| - 1];
      var (key, val) := p[|p| - 1];
      var c := Clean(init, whitelist, parseNumber);
      CleanLookup(init, whitelist, parseNumber, k);
      var kept := if Admitted(whitelist, key) then Coerce(key, val, parseNumber) else None;
      var cp := Clean(p, whitelist, parseNumber);
      assert p[..|p| - 1] == init;
      assert cp == c + (if kept.Some? then [(key, kept.value)] else []);
      if kept.Some? {
        assert Keys(cp) == Keys(c) + [key];
        assert cp[..|cp| - 1] == c;
      } else {
        assert cp == c;
      }
      assert Get(p, k) == (if key == k then val else Get(init, k));
      if key == k {
        LastKeyFresh(p);
      }
    }
  }

  /** `CleanLookup` read through the dictionary view of the sanitised object. */
  lemma CleanMapLookup(p: Payload, whitelist: Option<seq<string>>, parseNumber: NumberParser, k: string)
    requires DistinctKeys(p)
    ensures k in AsMap(Clean(p, whitelist, parseNumber)) <==> Admitted(whitelist, k) && Coerce(k, Get(p, k), parseNumber).Some?
    ensures k in AsMap(Clean(p, whitelist, parseNumber)) ==>
      AsMap(Clean(p, whitelist, parseNumber))[k] == Coerce(k, Get(p, k), parseNumber).value
  {
    CleanLookup(p, whitelist, parseNumber, k);
    AsMapLookup(Clean(p, whitelist, parseNumber), k);
  }

  /** The sanitised object has distinct keys, all admitted. */
  lemma {:induction false} CleanDistinct(p: Payload, whitelist: Option<seq<string>>, parseNumber: NumberParser)
    requires DistinctKeys(p)
    ensures DistinctKeys(Clean(p, whitelist, parseNumber))
    ensures forall i :: 0 <= i < |Clean(p, whitelist, parseNumber)| ==> Admitted(whitelist, Clean(p, whitelist, parseNumber)[i].0)
  {
    if p != [] {
      var init := p[..|p| - 1];
      var (key, val) := p[|p| - 1];
      var c := Clean(init, whitelist, parseNumber);
      CleanDistinct(init, whitelist, parseNumber);
      CleanLookup(init, whitelist, parseNumber, key);
      LastKeyFresh(p);
      assert !HasKey(c, key);
      forall i | 0 <= i < |c|
        ensures c[i].0 != key
      {
        assert Keys(c)[i] == c[i].0;
      }
    }
  }

  /**
   * The item `create` writes: the generated id, then the sanitised request
   * spread over it, then both timestamps.
   */
  function CreatedItem(clean: Payload, uuid: string, createdAt: string, updatedAt: string): Item
  {
    (map["id" := Str(uuid)] + AsMap(clean))["createdAt" := Str(createdAt)]["updatedAt" := Str(updatedAt)]
  }

  /**
   * A created item carries every key of the request that survives
   * sanitising, with its coerced value; both timestamps are the server's
   * even when the request supplies them; a non-empty `id` in the request
   * replaces the generated one; a request's `__proto__` key is never an
   * own key of the item.
   */
  lemma CreatedItemContents(p: Payload, uuid: string, createdAt: string, updatedAt: string, parseNumber: NumberParser)
    requires DistinctKeys(p)
    ensures var item := CreatedItem(Clean(p, None, parseNumber), uuid, createdAt, updatedAt);
      && item["createdAt"] == Str(createdAt) && item["updatedAt"] == Str(updatedAt)
      && item["id"] == (if Get(p, "id") != Str("") && Get(p, "id") != Undef then Get(p, "id") else Str(uuid))
      && (forall k :: k != "id" && k != "createdAt" && k != "updatedAt" ==>
            (k in item <==> Coerce(k, Get(p, k), parseNumber).Some?))
      && (forall k :: k != "id" && k != "createdAt" && k != "updatedAt" && k in item ==>
            item[k] == Coerce(k, Get(p, k), parseNumber).value)
      && "__proto__" !in item
  {
    var m := AsMap(Clean(p, None, parseNumber));
    forall k
      ensures k in m <==> Coerce(k, Get(p, k), parseNumber).Some?
      ensures k in m ==> m[k] == Coerce(k, Get(p, k), parseNumber).value
    {
      CleanMapLookup(p, None, parseNumber, k);
    }
    assert CreatedItem(Clean(p, None, parseNumber), uuid, createdAt, updatedAt) == (map["id" := Str(uuid)] + m)["createdAt" := Str(createdAt)]["updatedAt" := Str(updatedAt)];
  }

  /** `#${field}` */
  function NamePlaceholders(fields: seq<string>): seq<string>
  {
    seq(|fields|, i requires 0 <= i < |fields| => "#" + fields[i])
  }

  /** `:${field}` */
  function ValuePlaceholders(fields: seq<string>): seq<string>
  {
    seq(|fields|, i requires 0 <= i < |fields| => ":" + fields[i])
  }

  /**
   * Placeholders made from distinct attribute names other than `updatedAt`
   * are distinct and never the `updatedAt` ones.
   */
  lemma NamedPlaceholdersUsable(fields: seq<string>)
    requires forall i, j :: 0 <= i < j < |fields| ==> fields[i] != fields[j]
    requires "updatedAt" !in fields
    ensures Distinct(NamePlaceholders(fields)) && Distinct(ValuePlaceholders(fields))
    ensures "#updatedAt" !in NamePlaceholders(fields) && ":updatedAt" !in ValuePlaceholders(fields)
  {
    var names, values := NamePlaceholders(fields), ValuePlaceholders(fields);
    forall i, j | 0 <= i < j < |fields|
      ensures names[i] != names[j] && values[i] != values[j]
    {
      assert names[i][1..] == fields[i] == values[i][1..];
      assert names[j][1..] == fields[j] == values[j][1..];
    }
    forall i | 0 <= i < |fields|
      ensures names[i] != "#updatedAt" && values[i] != ":updatedAt"
    {
      assert names[i][1..] == fields[i] == values[i][1..];
      assert "#updatedAt"[1..] == "updatedAt" == ":updatedAt"[1..];
    }
  }

  /**
   * The `forEach` over `Object.keys(cleanData)` and the `updatedAt` suffix:
   * each field is set through `#field` and `:field`, then `updatedAt`.
   */
  method BuildUpdate(clean: Payload, now: string) returns (u: UpdateRequest)
    requires DistinctKeys(clean)
    requires !HasKey(clean, "updatedAt")
    ensures Encodes(u, clean, NamePlaceholders(Keys(clean)), ValuePlaceholders(Keys(clean)), now)
  {
    var fields := Keys(clean);
    ghost var namePh, valuePh := NamePlaceholders(fields), ValuePlaceholders(fields);
    var names: map<string, string> := map[];
    var values: map<string, JsVal> := map[":updatedAt" := Str(now)];
    var updates: seq<(string, string)> := [];
    var i := 0;
    while i < |fields|
      invariant 0 <= i <= |fields|
      invariant names == NamesAfter(clean, namePh, i)
      invariant values == ValuesAfter(clean, valuePh, now, i)
      invariant |updates| == i
      invariant forall j :: 0 <= j < i ==> updates[j] == (namePh[j], valuePh[j])
    {
      var field := fields[i];
      GetEntry(clean, i);
      names := names["#" + field := field];
      values := values[":" + field := Get(clean, field)];
      updates := updates + [("#" + field, ":" + field)];
      i := i + 1;
    }
    NamedPlaceholdersUsable(fields);
    FinishedEncodes(clean, namePh, valuePh, now, updates);
    names := names["#updatedAt" := "updatedAt"];
    updates := updates + [("#updatedAt", ":updatedAt")];
    u := UpdateRequest(updates, names, values);
  }

  /** The record after `update(id, data)`: the sanitised fields overwritten, `updatedAt` refreshed. */
  function UpdatedItem(rec: Item, clean: Payload, now: string): Item
  {
    (rec + AsMap(clean))["updatedAt" := Str(now)]
  }

  /**
   * An update sets exactly the whitelisted attributes whose values survive
   * sanitising, to their coerced values, refreshes `updatedAt`, and keeps
   * every other attribute, `id` and `createdAt` included.
   */
  lemma UpdatedItemContents(rec: Item, p: Payload, now: string, parseNumber: NumberParser)
    requires DistinctKeys(p)
    ensures var r := UpdatedItem(rec, Clean(p, Some(LambdaWhitelist), parseNumber), now);
      && r["updatedAt"] == Str(now)
      && (forall k :: k in LambdaWhitelist && Coerce(k, Get(p, k), parseNumber).Some? ==>
            k in r && r[k] == Coerce(k, Get(p, k), parseNumber).value)
      && (forall k :: k != "updatedAt" && !(k in LambdaWhitelist && Coerce(k, Get(p, k), parseNumber).Some?) ==>
            (k in r <==> k in rec) && (k in rec ==> r[k] == rec[k]))
  {
    var clean := Clean(p, Some(LambdaWhitelist), parseNumber);
    forall k
      ensures k in AsMap(clean) <==> k in LambdaWhitelist && Coerce(k, Get(p, k), parseNumber).Some?
      ensures k in AsMap(clean) ==> AsMap(clean)[k] == Coerce(k, Get(p, k), parseNumber).value
    {
      CleanLookup(p, Some(LambdaWhitelist), parseNumber, k);
      AsMapLookup(clean, k);
    }
  }

  /** The table, keyed by the `id` attribute. */
  class ClothingRepository {
    var items: map<JsVal, Item>

    ghost predicate Valid()
      reads this
    {
      KeyedById(items)
    }

    /** A repository over a table that holds nothing yet. */
    constructor()
      ensures Valid() && items == map[]
    {
      items := map[];
    }

    /**
     * `create(itemData)` with the generated id `uuid` and the two clock
     * readings `createdAt` and `updatedAt` (the clock is read once for each,
     * so they may differ); `fault` is the error the `PutCommand` throws, if any. The item
     * is put under its `id`, replacing any record stored there.
     */
    method Create(itemData: Payload, uuid: string, createdAt: string, updatedAt: string, parseNumber: NumberParser, fault: Option<string>)
      returns (r: Result<Item>)
      requires Valid()
      modifies this
      ensures Valid()
      ensures fault.Some? ==> r == Fail(fault.value) && items == old(items)
      ensures fault.None? ==>
        && r == Ok(CreatedItem(Clean(itemData, None, parseNumber), uuid, createdAt, updatedAt))
        && items == old(items)[r.value["id"] := r.value]
    {
      var cleanData := Sanitize(itemData, None, parseNumber);
      var item := CreatedItem(cleanData, uuid, createdAt, updatedAt);
      if fault.Some? {
        return Fail(fault.value);
      }
      PutKeepsKeyed(items, item);
      items := items[item["id"] := item];
      return Ok(item);
    }

    /**
     * `findAll({limitPerPage})`: scans from no start key, appends each
     * page's items and resumes from its `LastEvaluatedKey` until a page has
     * none. `fuel` bounds the number of pages the store hands out.
     */
    method FindAll(limitPerPage: Option<nat>, scan: Scanner, ghost fuel: nat) returns (r: Result<seq<Item>>)
      requires Chain(scan, PageLimit(limitPerPage), None, fuel).Some?
      ensures r == Gather(Chain(scan, PageLimit(limitPerPage), None, fuel).value)
    {
      var limit := PageLimit(limitPerPage);
      var allItems: seq<Item> := [];
      var exclusiveStartKey: Option<Token> := None;
      ghost var f := fuel;
      ghost var whole := Gather(Chain(scan, limit, None, fuel).value);
      if whole.Ok? {
        assert [] + whole.value == whole.value;
      }
      while true
        invariant Chain(scan, limit, exclusiveStartKey, f).Some?
        invariant whole == Prepend(allItems, Gather(Chain(scan, limit, exclusiveStartKey, f).value))
        decreases f
      {
        var result := scan(limit, exclusiveStartKey);
        ScanStep(scan, limit, exclusiveStartKey, f);
        if result.ScanError? {
          return Fail(result.message);
        }
        if result.lastKey.Some? {
          PrependTwice(allItems, result.items, Gather(Chain(scan, limit, result.lastKey, f - 1).value));
        }
        allItems := allItems + result.items;
        exclusiveStartKey := result.lastKey;
        if exclusiveStartKey.None? {
          return Ok(allItems);
        }
        f := f - 1;
      }
    }

    /** `findById(id)`: the stored record, or `null` when there is none. */
    function FindById(id: string, fault: Option<string>): (r: Result<Option<Item>>)
      reads this
      ensures fault.Some? ==> r == Fail(fault.value)
      ensures fault.None? ==>
        && r.Ok?
        && (r.value.Some? ==> Str(id) in items && r.value.value == items[Str(id)])
        && (r.value.None? ==> Str(id) !in items)
    {
      if fault.Some? then Fail(fault.value)
      else if Str(id) in items then Ok(Some(items[Str(id)]))
      else Ok(None)
    }

    /** `delete(id)`: removes the record and answers with what it was (`ALL_OLD`), or `null`. */
    method Delete(id: string, fault: Option<string>) returns (r: Result<Option<Item>>)
      requires Valid()
      modifies this
      ensures Valid()
      ensures fault.Some? ==> r == Fail(fault.value) && items == old(items)
      ensures fault.None? ==>
        && r == Ok(if Str(id) in old(items) then Some(old(items)[Str(id)]) else None)
        && items == old(items) - {Str(id)}
    {
      if fault.Some? {
        return Fail(fault.value);
      }
      var prior := if Str(id) in items then Some(items[Str(id)]) else None;
      items := items - {Str(id)};
      return Ok(prior);
    }

    /**
     * `update(id, data)`: sanitises against the nine-field whitelist,
     * refuses when nothing is left, then sends one `UpdateCommand` built by
     * `BuildUpdate` and answers with the new record (`ALL_NEW`).
     */
    method Update(id: string, data: Payload, now: string, parseNumber: NumberParser, fault: Option<string>)
      returns (r: Result<Item>)
      requires Valid()
      requires DistinctKeys(data)
      modifies this
      ensures Valid()
      ensures Clean(data, Some(LambdaWhitelist), parseNumber) == [] ==>
        r == Fail("No valid fields for update") && items == old(items)
      ensures Clean(data, Some(LambdaWhitelist), parseNumber) != [] && fault.Some? ==>
        r == Fail(fault.value) && items == old(items)
      ensures Clean(data, Some(LambdaWhitelist), parseNumber) != [] && fault.None? ==>
        && r == Ok(UpdatedItem(Stored(old(items), Str(id)), Clean(data, Some(LambdaWhitelist), parseNumber), now))
        && items == old(items)[Str(id) := r.value]
    {
      var cleanData := Sanitize(data, Some(LambdaWhitelist), parseNumber);
      if |cleanData| == 0 {
        return Fail("No valid fields for update");
      }
      CleanDistinct(data, Some(LambdaWhitelist), parseNumber);
      assert !HasKey(cleanData, "updatedAt") && !HasKey(cleanData, "id") by {
        forall i | 0 <= i < |cleanData|
          ensures Keys(cleanData)[i] != "updatedAt" && Keys(cleanData)[i] != "id"
        {
          assert cleanData[i].0 in LambdaWhitelist;
        }
      }
      var u := BuildUpdate(cleanData, now);
      if fault.Some? {
        return Fail(fault.value);
      }
      var rec := Stored(items, Str(id));
      ApplyEncoded(rec, u, cleanData, NamePlaceholders(Keys(cleanData)), ValuePlaceholders(Keys(cleanData)), now);
      var next := ApplyUpdate(rec, u);
      AsMapLookup(cleanData, "id");
      assert next["id"] == Str(id);
      PutKeepsKeyed(items, next);
      items := items[Str(id) := next];
      return Ok(next);
    }
  }
}
