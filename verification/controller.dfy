/**
 * The HTTP server's controller: the strict payload validator and the five
 * request handlers, each an ordered chain of guards around calls into the
 * server repository. Every repository failure becomes the same 500 body.
 */
module Controller {
  import opened Outcomes
  import opened Js
  import opened Fields
  import opened Envelope
  import opened Dynamo
  import opened Validation
  import opened ServerRepository

  /** `price !== undefined && price !== null` and `Number(price)` is NaN or negative. */
  predicate StrictPriceRejected(p: Payload, parseNumber: NumberParser)
  {
    var price := Get(p, "price");
    var n := ToNumber(price, parseNumber);
    price != Undef && price != Null && (n == NaN || IsNegative(n))
  }

  /** `wishlist !== undefined && typeof wishlist !== 'boolean'`. */
  predicate WishlistRejected(p: Payload)
  {
    Get(p, "wishlist") != Undef && !Get(p, "wishlist").Bool?
  }

  /** The verdict of the strict validator: missing fields, then price, then wishlist. */
  function StrictVerdict(p: Payload, requireAllFields: bool, parseNumber: NumberParser): Verdict
  {
    if requireAllFields && MissingFields(p) != [] then Invalid(MissingMessage(MissingFields(p)))
    else if StrictPriceRejected(p, parseNumber) then Invalid("Invalid value for price")
    else if WishlistRejected(p) then Invalid("wishlist must be a boolean")
    else Valid
  }

  /** `validateClothingPayload(payload, requireAllFields)` of the controller. */
  method ValidateClothingPayload(payload: Payload, requireAllFields: bool, parseNumber: NumberParser)
    returns (verdict: Verdict)
    ensures verdict == StrictVerdict(payload, requireAllFields, parseNumber)
  {
    var name, brand, size, color := Get(payload, "name"), Get(payload, "brand"), Get(payload, "size"), Get(payload, "color");
    var price, wishlist := Get(payload, "price"), Get(payload, "wishlist");
    var missing: seq<string> := [];
    if requireAllFields {
      if !Truthy(name) { missing := missing + ["name"]; }
      assert missing == IfMissing(payload, "name");
      if !Truthy(brand) { missing := missing + ["brand"]; }
      assert missing == IfMissing(payload, "name") + IfMissing(payload, "brand");
      if !Truthy(size) { missing := missing + ["size"]; }
      assert missing == IfMissing(payload, "name") + IfMissing(payload, "brand") + IfMissing(payload, "size");
      if !Truthy(color) { missing := missing + ["color"]; }
      assert missing == IfMissing(payload, "name") + IfMissing(payload, "brand") + IfMissing(payload, "size") + IfMissing(payload, "color");
      if price == Undef || price == Null { missing := missing + ["price"]; }
      assert missing == IfMissing(payload, "name") + IfMissing(payload, "brand") + IfMissing(payload, "size") + IfMissing(payload, "color") + IfMissing(payload, "price");
      MissingFieldsInOrder(payload);
    }
    if |missing| > 0 {
      return Invalid("Missing required fields: " + Join(missing, ", "));
    }
    if price != Undef && price != Null {
      var priceNum := ToNumber(price, parseNumber);
      if priceNum == NaN || IsNegative(priceNum) {
        return Invalid("Invalid value for price");
      }
    }
    if wishlist != Undef && !wishlist.Bool? {
      return Invalid("wishlist must be a boolean");
    }
    return Valid;
  }

  /**
   * The strict validator accepts exactly what the lenient one accepts with
   * a boolean (or absent) wishlist. Whatever the lenient one rejects, the
   * strict one rejects too, with the same missing-fields message, or with
   * its own wording of the price message.
   */
  lemma StrictRefinesLenient(p: Payload, requireAllFields: bool, parseNumber: NumberParser)
    ensures StrictVerdict(p, requireAllFields, parseNumber).Valid? <==>
      LenientVerdict(p, requireAllFields, parseNumber).Valid? && !WishlistRejected(p)
    ensures LenientVerdict(p, requireAllFields, parseNumber) == Invalid("Invalid price value") ==>
      StrictVerdict(p, requireAllFields, parseNumber) == Invalid("Invalid value for price")
    ensures LenientVerdict(p, requireAllFields, parseNumber).Invalid? &&
            LenientVerdict(p, requireAllFields, parseNumber) != Invalid("Invalid price value") ==>
      StrictVerdict(p, requireAllFields, parseNumber) == LenientVerdict(p, requireAllFields, parseNumber)
  {
    assert StrictPriceRejected(p, parseNumber) <==> LenientPriceRejected(p, parseNumber);
    if requireAllFields && MissingFields(p) != [] {
      assert MissingMessage(MissingFields(p)) != "Invalid price value" by {
        assert MissingMessage(MissingFields(p))[0] == 'M';
      }
    }
  }

  /**
   * Once the fields and the price pass, a wishlist is accepted only as a
   * boolean or when absent: the string "true", the number 1 and `null` are
   * all rejected.
   */
  lemma WishlistMustBeBoolean(p: Payload, requireAllFields: bool, parseNumber: NumberParser)
    requires !requireAllFields || MissingFields(p) == []
    requires !StrictPriceRejected(p, parseNumber)
    ensures Get(p, "wishlist") == Undef || Get(p, "wishlist").Bool? ==> StrictVerdict(p, requireAllFields, parseNumber) == Valid
    ensures Get(p, "wishlist") in {Str("true"), Num(Finite(1.0)), Null} ==>
      StrictVerdict(p, requireAllFields, parseNumber) == Invalid("wishlist must be a boolean")
  {
  }

  /**
   * The checks come in a fixed order: a missing-fields failure hides a bad
   * price and a bad wishlist, and a bad price hides a bad wishlist.
   */
  lemma StrictCheckOrder(p: Payload, parseNumber: NumberParser)
    requires StrictPriceRejected(p, parseNumber) && WishlistRejected(p)
    ensures MissingFields(p) != [] ==> StrictVerdict(p, true, parseNumber) == Invalid(MissingMessage(MissingFields(p)))
    ensures MissingFields(p) == [] ==> StrictVerdict(p, true, parseNumber) == Invalid("Invalid value for price")
    ensures StrictVerdict(p, false, parseNumber) == Invalid("Invalid value for price")
  {
  }

  /** Only the required fields and the wishlist are inspected; notes and every other key are ignored. */
  lemma StrictInspectsOnly(p: Payload, q: Payload, requireAllFields: bool, parseNumber: NumberParser)
    requires forall f :: f in Required ==> Get(p, f) == Get(q, f)
    requires Get(p, "wishlist") == Get(q, "wishlist")
    ensures StrictVerdict(p, requireAllFields, parseNumber) == StrictVerdict(q, requireAllFields, parseNumber)
  {
    SameRequiredSameMissing(p, q);
    assert Get(p, "price") == Get(q, "price");
  }

  /** `GET /clothing`: every record, with `count` equal to the number returned. */
  method GetAllClothing(repo: ClothingRepository, scan: Scanner, ghost fuel: nat) returns (res: Response)
    requires Chain(scan, PageLimit(None), None, fuel).Some?
    ensures var listing := Gather(Chain(scan, PageLimit(None), None, fuel).value);
      && (listing.Ok? ==> res == Response(200, Success(Records(listing.value), None, Some(|listing.value|))))
      && (listing.Fail? ==> res == InternalError)
    ensures res.status == 200 ==> res.body.Success? && res.body.data.Records? && res.body.count == Some(|res.body.data.items|)
  {
    var items := repo.FindAll(None, scan, fuel);
    if items.Fail? {
      return InternalError;
    }
    return Response(200, Success(Records(items.value), None, Some(|items.value|)));
  }

  /** `GET /clothing/:id`: 400 without an id, 404 when nothing is stored, else 200 with the record. */
  function GetClothingById(repo: ClothingRepository, id: string, fault: Option<string>): (res: Response)
    reads repo
    ensures id == "" ==> res == IdRequired
    ensures id != "" && fault.Some? ==> res == InternalError
    ensures id != "" && fault.None? && Str(id) !in repo.items ==> res == NotFound
    ensures id != "" && fault.None? && Str(id) in repo.items ==>
      res == Response(200, Success(Record(repo.items[Str(id)]), None, None))
  {
    if id == "" then IdRequired
    else
      match repo.FindById(id, fault)
      case Fail(_) => InternalError
      case Ok(None) => NotFound
      case Ok(Some(item)) => Response(200, Success(Record(item), None, None))
  }

  /**
   * `POST /clothing`: full strict validation, then `create`; a rejected
   * payload never reaches the table.
   */
  method CreateClothing(repo: ClothingRepository, payload: Payload, uuid: string, createdAt: string, updatedAt: string,
                        parseNumber: NumberParser, fault: Option<string>) returns (res: Response)
    requires repo.Valid()
    modifies repo
    ensures repo.Valid()
    ensures StrictVerdict(payload, true, parseNumber).Invalid? ==>
      res == BadRequest(StrictVerdict(payload, true, parseNumber).message) && repo.items == old(repo.items)
    ensures StrictVerdict(payload, true, parseNumber).Valid? && fault.Some? ==>
      res == InternalError && repo.items == old(repo.items)
    ensures StrictVerdict(payload, true, parseNumber).Valid? && fault.None? ==>
      && res == Response(201, Success(Record(NewRecord(payload, uuid, createdAt, updatedAt)), Some("Clothing item created successfully"), None))
      && repo.items == old(repo.items)[Str(uuid) := NewRecord(payload, uuid, createdAt, updatedAt)]
  {
    var validation := ValidateClothingPayload(payload, true, parseNumber);
    if validation.Invalid? {
      return BadRequest(validation.message);
    }
    var newItem := repo.Create(payload, uuid, createdAt, updatedAt, fault);
    if newItem.Fail? {
      return InternalError;
    }
    return Response(201, Success(Record(newItem.value), Some("Clothing item created successfully"), None));
  }

  /**
   * `PUT /clothing/:id`: id, then an updatable key, then partial strict
   * validation, then existence, then `update`. Only the last step changes
   * the table, and it never creates a record.
   */
  method UpdateClothing(repo: ClothingRepository, id: string, payload: Payload, now: string,
                        parseNumber: NumberParser, findFault: Option<string>, updateFault: Option<string>)
    returns (res: Response)
    requires repo.Valid()
    requires DistinctKeys(payload)
    modifies repo
    ensures repo.Valid()
    ensures id == "" ==> res == IdRequired && repo.items == old(repo.items)
    ensures id != "" && !HasUpdatableKey(payload) ==>
      res == BadRequest("No data to update") && repo.items == old(repo.items)
    ensures id != "" && HasUpdatableKey(payload) && StrictVerdict(payload, false, parseNumber).Invalid? ==>
      res == BadRequest(StrictVerdict(payload, false, parseNumber).message) && repo.items == old(repo.items)
    ensures id != "" && HasUpdatableKey(payload) && StrictVerdict(payload, false, parseNumber).Valid? ==>
      && (findFault.Some? ==> res == InternalError && repo.items == old(repo.items))
      && (findFault.None? && Str(id) !in old(repo.items) ==> res == NotFound && repo.items == old(repo.items))
      && (findFault.None? && Str(id) in old(repo.items) && (updateFault.Some? || UpdateFields(payload) == []) ==>
            res == InternalError && repo.items == old(repo.items))
      && (findFault.None? && Str(id) in old(repo.items) && updateFault.None? && UpdateFields(payload) != [] ==>
            && res == Response(200, Success(Record(Updated(old(repo.items)[Str(id)], payload, now)),
                                           Some("Clothing item updated successfully"), None))
            && repo.items == old(repo.items)[Str(id) := Updated(old(repo.items)[Str(id)], payload, now)])
    ensures res.status == 200 ==> Str(id) in old(repo.items) && repo.items.Keys == old(repo.items).Keys
  {
    if id == "" {
      return IdRequired;
    }
    if !HasUpdatableKey(payload) {
      return BadRequest("No data to update");
    }
    var validation := ValidateClothingPayload(payload, false, parseNumber);
    if validation.Invalid? {
      return BadRequest(validation.message);
    }
    var existing := repo.FindById(id, findFault);
    if existing.Fail? {
      return InternalError;
    }
    if existing.value.None? {
      return NotFound;
    }
    var updated := repo.Update(id, payload, now, updateFault);
    if updated.Fail? {
      return InternalError;
    }
    return Response(200, Success(Record(updated.value), Some("Clothing item updated successfully"), None));
  }

  /**
   * `DELETE /clothing/:id`: id, then existence, then `delete`; the body
   * carries the deleted record, or the pre-read one when `delete` answers
   * with nothing.
   */
  method DeleteClothing(repo: ClothingRepository, id: string, findFault: Option<string>, deleteFault: Option<string>)
    returns (res: Response)
    requires repo.Valid()
    modifies repo
    ensures repo.Valid()
    ensures id == "" ==> res == IdRequired && repo.items == old(repo.items)
    ensures id != "" && findFault.Some? ==> res == InternalError && repo.items == old(repo.items)
    ensures id != "" && findFault.None? && Str(id) !in old(repo.items) ==> res == NotFound && repo.items == old(repo.items)
    ensures id != "" && findFault.None? && Str(id) in old(repo.items) && deleteFault.Some? ==>
      res == InternalError && repo.items == old(repo.items)
    ensures id != "" && findFault.None? && Str(id) in old(repo.items) && deleteFault.None? ==>
      && res == Response(200, Success(Record(old(repo.items)[Str(id)]), Some("Clothing item deleted successfully"), None))
      && repo.items == old(repo.items) - {Str(id)}
  {
    if id == "" {
      return IdRequired;
    }
    var existing := repo.FindById(id, findFault);
    if existing.Fail? {
      return InternalError;
    }
    if existing.value.None? {
      return NotFound;
    }
    var deleted := repo.Delete(id, deleteFault);
    if deleted.Fail? {
      return InternalError;
    }
    var data := existing.value.value;
    if deleted.value.Some? {
      data := deleted.value.value;
    }
    return Response(200, Success(Record(data), Some("Clothing item deleted successfully"), None));
  }
}
