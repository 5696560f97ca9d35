/**
 * The serverless `create`, `get` and `update` handlers: ordered guard
 * chains around the serverless repository, answering with the uniform
 * response envelope.
 */
module LambdaHandlers {
  import opened Outcomes
  import opened Js
  import opened Fields
  import opened Envelope
  import opened Dynamo
  import opened Validation
  import opened LambdaRepository

  /**
   * The parts of an API Gateway event the handlers read. The empty string
   * stands for an absent, `null` or empty value, which the handlers treat
   * alike (all are falsy).
   */
  datatype Event = Event(pathId: string, queryId: string, body: string)

  /**
   * `JSON.parse`: the object's entries in key order, or `None` when the text
   * is not JSON. A JSON value that is not an object is given as the payload
   * that destructuring and `Object.keys` see in it.
   */
  type JsonParser = string -> Option<Payload>

  /** A JSON parser yields objects, whose keys are distinct. */
  ghost predicate YieldsObjects(parseJson: JsonParser)
  {
    forall text :: parseJson(text).Some? ==> DistinctKeys(parseJson(text).value)
  }

  /** `event.body ? JSON.parse(event.body) : {}`, with a parse error caught. */
  function ParseBody(body: string, parseJson: JsonParser): Result<Payload>
  {
    if body == "" then Ok([])
    else if parseJson(body).None? then Fail("Invalid JSON body")
    else Ok(parseJson(body).value)
  }

  /** The `get` handler's id: the path parameter, or the query-string one when the path gives none. */
  function ResolveId(ev: Event): string
  {
    if ev.pathId != "" then ev.pathId else ev.queryId
  }

  /** The `get` handler: 400 without an id from either source, 404 when nothing is stored, else 200. */
  function GetHandler(repo: ClothingRepository, ev: Event, fault: Option<string>): (res: Response)
    reads repo
    ensures ResolveId(ev) == "" ==> res == IdRequired
    ensures ResolveId(ev) != "" && fault.Some? ==> res == InternalError
    ensures ResolveId(ev) != "" && fault.None? && Str(ResolveId(ev)) !in repo.items ==> res == NotFound
    ensures ResolveId(ev) != "" && fault.None? && Str(ResolveId(ev)) in repo.items ==>
      res == Response(200, Success(Record(repo.items[Str(ResolveId(ev))]), None, None))
  {
    var id := ResolveId(ev);
    if id == "" then IdRequired
    else
      match repo.FindById(id, fault)
      case Fail(_) => InternalError
      case Ok(None) => NotFound
      case Ok(Some(item)) => Response(200, Success(Record(item), None, None))
  }

  /**
   * The `create` handler: parse, full lenient validation, then `create`
   * with the payload as parsed. Only a valid payload reaches the table.
   */
  method CreateHandler(repo: ClothingRepository, ev: Event, parseJson: JsonParser, parseNumber: NumberParser,
                       uuid: string, createdAt: string, updatedAt: string, fault: Option<string>) returns (res: Response)
    requires repo.Valid()
    modifies repo
    ensures repo.Valid()
    ensures ParseBody(ev.body, parseJson).Fail? ==>
      res == BadRequest("Invalid JSON body") && repo.items == old(repo.items)
    ensures ParseBody(ev.body, parseJson).Ok? ==>
      var p := ParseBody(ev.body, parseJson).value;
      && (LenientVerdict(p, true, parseNumber).Invalid? ==>
            res == BadRequest(LenientVerdict(p, true, parseNumber).message) && repo.items == old(repo.items))
      && (LenientVerdict(p, true, parseNumber).Valid? && fault.Some? ==>
            res == InternalError && repo.items == old(repo.items))
      && (LenientVerdict(p, true, parseNumber).Valid? && fault.None? ==>
            var item := CreatedItem(Clean(p, None, parseNumber), uuid, createdAt, updatedAt);
            && res == Response(201, Success(Record(item), Some("Clothing item created successfully"), None))
            && repo.items == old(repo.items)[item["id"] := item])
  {
    var parsed := ParseBody(ev.body, parseJson);
    if parsed.Fail? {
      return BadRequest("Invalid JSON body");
    }
    var payload := parsed.value;
    var validation := ValidateClothingPayload(payload, true, parseNumber);
    if validation.Invalid? {
      return BadRequest(validation.message);
    }
    var newItem := repo.Create(payload, uuid, createdAt, updatedAt, parseNumber, fault);
    if newItem.Fail? {
      return InternalError;
    }
    return Response(201, Success(Record(newItem.value), Some("Clothing item created successfully"), None));
  }

  /**
   * The `update` handler: path id, parse, an updatable key, partial lenient
   * validation, existence, then `update`. Only the last step changes the
   * table; when the repository finds nothing to write it throws, which
   * becomes the generic 500.
   */
  method UpdateHandler(repo: ClothingRepository, ev: Event, parseJson: JsonParser, parseNumber: NumberParser,
                       now: string, findFault: Option<string>, updateFault: Option<string>) returns (res: Response)
    requires repo.Valid()
    requires YieldsObjects(parseJson)
    modifies repo
    ensures repo.Valid()
    ensures ev.pathId == "" ==> res == IdRequired && repo.items == old(repo.items)
    ensures ev.pathId != "" && ParseBody(ev.body, parseJson).Fail? ==>
      res == BadRequest("Invalid JSON body") && repo.items == old(repo.items)
    ensures ev.pathId != "" && ParseBody(ev.body, parseJson).Ok? ==>
      var p := ParseBody(ev.body, parseJson).value;
      var id := ev.pathId;
      && (!HasUpdatableKey(p) ==> res == BadRequest("No data to update") && repo.items == old(repo.items))
      && (HasUpdatableKey(p) && LenientVerdict(p, false, parseNumber).Invalid? ==>
            res == BadRequest(LenientVerdict(p, false, parseNumber).message) && repo.items == old(repo.items))
      && (HasUpdatableKey(p) && LenientVerdict(p, false, parseNumber).Valid? ==>
            && (findFault.Some? ==> res == InternalError && repo.items == old(repo.items))
            && (findFault.None? && Str(id) !in old(repo.items) ==> res == NotFound && repo.items == old(repo.items))
            && (findFault.None? && Str(id) in old(repo.items) &&
                (updateFault.Some? || Clean(p, Some(LambdaWhitelist), parseNumber) == []) ==>
                  res == InternalError && repo.items == old(repo.items))
            && (findFault.None? && Str(id) in old(repo.items) &&
                updateFault.None? && Clean(p, Some(LambdaWhitelist), parseNumber) != [] ==>
                  var updated := UpdatedItem(old(repo.items)[Str(id)], Clean(p, Some(LambdaWhitelist), parseNumber), now);
                  && res == Response(200, Success(Record(updated), Some("Clothing item updated successfully"), None))
                  && repo.items == old(repo.items)[Str(id) := updated]))
  {
    var id := ev.pathId;
    if id == "" {
      return IdRequired;
    }
    var parsed := ParseBody(ev.body, parseJson);
    if parsed.Fail? {
      return BadRequest("Invalid JSON body");
    }
    var payload := parsed.value;
    if !HasUpdatableKey(payload) {
      return BadRequest("No data to update");
    }
    var validation := ValidateClothingPayload(payload, false, parseNumber);
    if validation.Invalid? {
      return BadRequest(validation.message);
    }
    var existing := repo.FindById(id, findFault);
    if existing.Fail? {
      return InternalError;
    }
    if existing.value.None? {
      return NotFound;
    }
    var updated := repo.Update(id, payload, now, parseNumber, updateFault);
    if updated.Fail? {
      return InternalError;
    }
    return Response(200, Success(Record(updated.value), Some("Clothing item updated successfully"), None));
  }

  /**
   * A payload can pass every guard of the `update` handler and still leave
   * the repository nothing to write: `{name: ""}` has an updatable key and
   * passes partial validation, but sanitising drops the empty name, so the
   * request ends in the generic 500 rather than a 400.
   */
  lemma EmptyNamePassesGuardsButWritesNothing(parseNumber: NumberParser)
    ensures var p: Payload := [("name", Str(""))];
      && HasUpdatableKey(p)
      && LenientVerdict(p, false, parseNumber) == Valid
      && Clean(p, Some(LambdaWhitelist), parseNumber) == []
  {
    var p: Payload := [("name", Str(""))];
    assert p[0].0 in Updatable;
    assert p[..0] == [];
  }

  /** A link or a reference alone is not an update, although the repository would write either. */
  lemma LinkAloneIsNoUpdate(link: JsVal, parseNumber: NumberParser)
    requires link != Str("") && link != Undef
    ensures var p: Payload := [("link", link)];
      && !HasUpdatableKey(p)
      && Clean(p, Some(LambdaWhitelist), parseNumber) == [("link", link)]
  {
    var p: Payload := [("link", link)];
    assert p[..0] == [];
    assert "link" !in Updatable;
  }
}
