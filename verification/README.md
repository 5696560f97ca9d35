# Clothing wishlist API — a Dafny model of its request-handling core

The Clothing Wishlist API stores clothing items (name, brand, size, color,
price, a wishlist flag, notes and optional link/reference) in a DynamoDB
table. It ships in two variants:

- **attached**: an Express server. `controller.js` validates strictly and
  calls `DynamoDBClothingRepository`. That repository writes fixed-shape
  records and builds updates with indexed placeholders `#f0`/`:v0`.
- **detached**: a set of AWS Lambda functions selected by
  `lambdaDispatcher.js`. The `create`, `get` and `update` handlers validate
  leniently. Their repository sanitises and coerces what it writes and names
  placeholders after the attributes (`#name`/`:name`).

This project models both payload validators, both repositories, the five
controller handlers, the three Lambda handlers, the `ClothingItem`
constructor and the dispatcher table. The properties below are proved about
that model.

How the model represents the system:

- **Values.** A JavaScript value is `Js.JsVal` (string, number, boolean,
  `null`, `undefined`). A number is `Js.JsNumber`: finite, NaN or ±∞.
  Truthiness and `Number()` follow the language rules.
- **Payloads.** A request payload is `Js.Payload`: its entries in
  `Object.keys` order, which drives placeholder numbering and key order.
  Reading a key takes the last entry for it. Parsed JSON objects have
  distinct keys, and the lemmas that need this say so (`DistinctKeys`).
- **Host parameters.** The host's `Number(string)`, `JSON.parse`, the uuid
  generator and the clock are parameters: `parseNumber`, `parseJson`,
  `uuid`, and one string per clock reading (`createdAt` and `updatedAt`
  for the two readings of a create, `now` for the one of an update).
- **Store failures.** Each store call takes a `fault: Option<string>`; `Some(m)` means
  the SDK call throws with message `m`.
- **The table.** Each repository is a class whose `items` field maps the
  `id` attribute to the stored record. `Valid()` says every record sits
  under its own `id`. A write is an update of that map.
- **Scans.** A scan is a `Dynamo.Scanner`: it maps a page limit and a
  continuation key to a page or a failure. `Dynamo.Chain` follows the
  continuation keys. The listing loops are proved equal to `Dynamo.Gather`
  of that chain, with a ghost `fuel` bounding the number of pages (the
  store hands out finitely many).
- **Updates.** An update request is `Dynamo.UpdateRequest`: the parsed
  `SET` clause and its two placeholder maps. `Dynamo.Encodes` states what
  a correct request for a list of fields looks like. `Dynamo.ApplyEncoded`
  proves what the store then holds.
- **Handlers.** A handler's response is `Envelope.Response`: status and
  `{success, data, error, message, count}` body. Handlers that write are
  methods whose contracts give the response and the new table for every
  branch of the guard chain.

## Model

| member | source | states |
|---|---|---|
| Validation.ValidateClothingPayload | detached/src/modules/clothing/validation.js:1-22 | the verdict is the lenient verdict: missing fields (full mode only), then the price, else valid |
| Validation.MissingSnoc | detached/src/modules/clothing/validation.js:5-11 | checking one more field appends it to the report exactly when the payload lacks it |
| Validation.MissingAmongExact | detached/src/modules/clothing/validation.js:5-11 | a field is reported exactly when it is among those checked and the payload lacks it |
| Validation.MissingFieldsInOrder | detached/src/modules/clothing/validation.js:5-15 | the report lists name, brand, size, color, price in that order, each exactly when missing |
| Validation.MissingFieldsExact | detached/src/modules/clothing/validation.js:5-15 | full mode fails with "Missing required fields: " and exactly the missing fields joined by ", " |
| Validation.EmptyStringMissingZeroPricePresent | detached/src/modules/clothing/validation.js:6-10 | an empty name is missing; a price of 0 is present and passes |
| Validation.PartialNeverReportsMissing | detached/src/modules/clothing/validation.js:5-19 | in partial mode the only possible failure is the price, exactly when the price rule rejects |
| Validation.MissingBeforePrice | detached/src/modules/clothing/validation.js:13-19 | a missing-fields failure is returned even when the price is also bad |
| Validation.PriceRule | detached/src/modules/clothing/validation.js:17-19 | a supplied price fails exactly when it converts to NaN or a negative number; null and "5" pass, -1 fails |
| Validation.SameRequiredSameMissing | detached/src/modules/clothing/validation.js:5-11 | payloads that agree on the five required fields lack the same ones |
| Validation.OnlyRequiredFieldsInspected | detached/src/modules/clothing/validation.js:2-21 | payloads that agree on the five required fields get the same verdict |
| Controller.ValidateClothingPayload | attached/src/modules/clothing/controller.js:8-36 | the verdict is the strict verdict: missing fields, then price, then wishlist |
| Controller.StrictRefinesLenient | attached/src/modules/clothing/controller.js:20-35 | strict accepts iff lenient accepts and the wishlist is boolean or absent; lenient rejections carry over with the same or reworded message |
| Controller.WishlistMustBeBoolean | attached/src/modules/clothing/controller.js:31-35 | after fields and price pass, a boolean or absent wishlist is valid and "true", 1 or null is rejected with 'wishlist must be a boolean' |
| Controller.StrictCheckOrder | attached/src/modules/clothing/controller.js:20-33 | missing fields hide a bad price and wishlist; a bad price hides a bad wishlist |
| Controller.StrictInspectsOnly | attached/src/modules/clothing/controller.js:9-35 | payloads that agree on the required fields and wishlist get the same verdict |
| Controller.GetAllClothing | attached/src/modules/clothing/controller.js:39-51 | 200 with every listed record and count equal to their number, or the generic 500 |
| Controller.GetClothingById | attached/src/modules/clothing/controller.js:54-66 | 400 without id, 500 on a lookup failure, 404 when absent, else 200 with the stored record |
| Controller.CreateClothing | attached/src/modules/clothing/controller.js:69-86 | 400 with the validator's message and an unchanged table when full validation fails; else 201 with the written record, or 500 |
| Controller.UpdateClothing | attached/src/modules/clothing/controller.js:89-121 | guards id, an updatable key (`HasUpdatableKey`: some key among the seven, whatever its value), partial validation, existence in order; every failing guard leaves the table unchanged; 404 never writes; 200 only for a stored id |
| Controller.DeleteClothing | attached/src/modules/clothing/controller.js:124-148 | 404 without deleting when absent; success removes the record and answers with it |
| ServerRepository.NewRecordShape | attached/src/interfaces/implementations/dynamoDBClothingRepository.js:37-49 | the record `NewRecord` builds has exactly the ten attributes; the five catalogue fields are copied; wishlist/notes default to false/"" only when undefined; the id is the fresh uuid and createdAt/updatedAt are the two clock readings |
| ServerRepository.UpdateFieldsExact | attached/src/interfaces/implementations/dynamoDBClothingRepository.js:121-124 | a key is kept iff whitelisted, present and not undefined |
| ServerRepository.UpdateFieldsWhitelisted | attached/src/interfaces/implementations/dynamoDBClothingRepository.js:121-124 | every kept key is one of the seven updatable fields |
| ServerRepository.EntriesLookup | attached/src/interfaces/implementations/dynamoDBClothingRepository.js:138 | each kept field carries the request's value |
| ServerRepository.IndexedKeysDistinct | attached/src/interfaces/implementations/dynamoDBClothingRepository.js:134-142 | different indexes give different placeholders, never the updatedAt ones |
| ServerRepository.IndexedKeysUsable | attached/src/interfaces/implementations/dynamoDBClothingRepository.js:134-142 | the indexed placeholder lists are duplicate-free and avoid the updatedAt placeholders |
| ServerRepository.BuildIndexedUpdate | attached/src/interfaces/implementations/dynamoDBClothingRepository.js:130-145 | the request sets the i-th kept field through the placeholders "#f" + i and ":v" + i (i in decimal), in order, then "#updatedAt = :updatedAt"; its maps define only those placeholders |
| ServerRepository.UpdatedContents | attached/src/interfaces/implementations/dynamoDBClothingRepository.js:130-158 | the new record overwrites exactly the kept fields (values unchecked), refreshes updatedAt, keeps everything else |
| ServerRepository.UpdateKeepsId | attached/src/interfaces/implementations/dynamoDBClothingRepository.js:121-149 | an update never changes the id attribute |
| ServerRepository.ClothingRepository.Create | attached/src/interfaces/implementations/dynamoDBClothingRepository.js:36-64 | writes and returns the new record under its fresh id, or fails with "Error creating clothing item: " + cause and writes nothing |
| ServerRepository.ClothingRepository.FindAll | attached/src/interfaces/implementations/dynamoDBClothingRepository.js:66-89 | the listing follows continuation keys (page size the caller's, 100 by default) and returns all pages in order, or the first failure prefixed "Error scanning clothing table: " |
| ServerRepository.ClothingRepository.FindById | attached/src/interfaces/implementations/dynamoDBClothingRepository.js:91-101 | null for an empty id without lookup; the stored record or null; failures prefixed "Error getting clothing item by id: " |
| ServerRepository.ClothingRepository.Delete | attached/src/interfaces/implementations/dynamoDBClothingRepository.js:103-117 | refuses an empty id before the store; removes the record and returns the prior one or null; failures name the id |
| ServerRepository.ClothingRepository.constructor | attached/src/interfaces/implementations/dynamoDBClothingRepository.js:35 | a new repository starts over an empty table that satisfies the keyed-by-id invariant |
| ServerRepository.ClothingRepository.Update | attached/src/interfaces/implementations/dynamoDBClothingRepository.js:119-163 | refuses an empty id, then no kept fields, before the store; otherwise stores and returns the updated record; failures name the id |
| LambdaRepository.CoercionRules | detached/src/modules/clothing/repository.js:29-40 | `Coerce`, what one entry is stored as: "" and undefined dropped; price kept only as a finite number ≥ 0 (null → 0, "5" → 5, -1/∞/"abc" dropped); wishlist a boolean; a `__proto__` key never kept (the assignment hits the prototype setter); other values verbatim |
| LambdaRepository.WishlistExamples | detached/src/modules/clothing/repository.js:36-39 | "TRUE", "True", "1" and 1 are true; "yes", "0", "1.0" and null are false; booleans unchanged |
| LambdaRepository.Sanitize | detached/src/modules/clothing/repository.js:83-97 | the sanitising loop yields the admitted entries that survive coercion, in key order |
| LambdaRepository.CleanLookup | detached/src/modules/clothing/repository.js:28-41 | a key is an own key of the sanitised object iff admitted and its value survives coercion (so never `__proto__`), holding the coerced value |
| LambdaRepository.CleanMapLookup | detached/src/modules/clothing/repository.js:43-48 | the same, read through the dictionary the spread builds, which therefore never holds `__proto__` |
| LambdaRepository.CleanDistinct | detached/src/modules/clothing/repository.js:83-99 | sanitised keys are distinct and all admitted |
| LambdaRepository.CreatedItemContents | detached/src/modules/clothing/repository.js:43-51 | the created item holds every surviving key coerced, the two clock readings as createdAt/updatedAt overriding the caller's, and a non-empty caller id in place of the uuid; a request's `__proto__` key never becomes an own key of the item |
| LambdaRepository.NamedPlaceholdersUsable | detached/src/modules/clothing/repository.js:102-113 | attribute-named placeholders of whitelisted fields are distinct and never collide with updatedAt |
| LambdaRepository.BuildUpdate | detached/src/modules/clothing/repository.js:99-115 | the request sets each sanitised field k through the placeholders "#" + k and ":" + k, in key order, then "#updatedAt = :updatedAt"; its maps define only those placeholders |
| LambdaRepository.UpdatedItemContents | detached/src/modules/clothing/repository.js:81-128 | the new record sets exactly the whitelisted surviving fields to their coerced values, refreshes updatedAt, keeps id, createdAt and all else |
| LambdaRepository.ClothingRepository.Create | detached/src/modules/clothing/repository.js:27-52 | puts and returns the created item under its id; a failure propagates and writes nothing |
| LambdaRepository.ClothingRepository.FindAll | detached/src/modules/clothing/repository.js:54-67 | the listing follows continuation keys (page size the caller's, 100 by default) and returns all pages in order, or the failure |
| LambdaRepository.ClothingRepository.FindById | detached/src/modules/clothing/repository.js:69-72 | the stored record or null |
| LambdaRepository.ClothingRepository.Delete | detached/src/modules/clothing/repository.js:74-79 | removes the record and returns the prior one or null |
| LambdaRepository.ClothingRepository.constructor | detached/src/modules/clothing/repository.js:26 | a new repository starts over an empty table that satisfies the keyed-by-id invariant |
| LambdaRepository.ClothingRepository.Update | detached/src/modules/clothing/repository.js:81-129 | fails with 'No valid fields for update' before the store when nothing survives; otherwise stores and returns the updated record |
| Dynamo.ChainFollowsKeys | attached/src/interfaces/implementations/dynamoDBClothingRepository.js:71-82 | the first scan has no start key; each next scan starts at the previous LastEvaluatedKey; the listing stops at a page without one or at a failure |
| Dynamo.GatherAllOrNothing | attached/src/interfaces/implementations/dynamoDBClothingRepository.js:70-88 | all pages succeed → all items in page order; otherwise the first failure and no partial result (the attached repository prefixes its message, a success passing unchanged) |
| Dynamo.ScanStep | detached/src/modules/clothing/repository.js:58-64 | one loop round: the listing is this page's items followed by the rest of the listing |
| Dynamo.PagedScanAnswer | detached/src/modules/clothing/repository.js:58-61 | a scan resuming at k gets up to limit records from k, with a continuation key exactly when more remain |
| Dynamo.ListingOfPagedStore | detached/src/modules/clothing/repository.js:54-66 | against a store paging in order, a listing resumed at k returns the records from k on |
| Dynamo.FullListingOfPagedStore | detached/src/modules/clothing/repository.js:54-66 | a full listing returns every record in store order; 250 records at 100 per page take three scans |
| Dynamo.Stored | attached/src/interfaces/implementations/dynamoDBClothingRepository.js:147-158 | an update starts from the stored record, or from the bare key when none exists |
| Dynamo.PutKeepsKeyed | attached/src/interfaces/implementations/dynamoDBClothingRepository.js:51-58 | writing a record under its own id keeps every record under its id |
| Dynamo.NamesAfterDefine | attached/src/interfaces/implementations/dynamoDBClothingRepository.js:134-140 | after n fields the names map defines exactly their n placeholders, each naming its field |
| Dynamo.ValuesAfterDefine | attached/src/interfaces/implementations/dynamoDBClothingRepository.js:131-140 | after n fields the values map defines :updatedAt and their n placeholders, each holding its value |
| Dynamo.FinishedSetsInOrder | detached/src/modules/clothing/repository.js:106-113 | the finished clause sets each field through its placeholders, in order |
| Dynamo.FinishedEncodes | detached/src/modules/clothing/repository.js:102-115 | with distinct non-updatedAt placeholders, the finished request encodes the fields |
| Dynamo.SetPartsPrefix | detached/src/modules/clothing/repository.js:115-128 | applying the first n parts sets the first n fields |
| Dynamo.EncodesResolves | detached/src/modules/clothing/repository.js:102-115 | every placeholder of an encoding clause is defined |
| Dynamo.ApplyEncoded | detached/src/modules/clothing/repository.js:115-128 | an encoded request overwrites exactly the fields, refreshes updatedAt, keeps all else |
| Js.AsMapLookup | detached/src/modules/clothing/repository.js:43-48 | the dictionary view holds exactly the payload's keys with the values reading them gives |
| Js.GetEntry | attached/src/interfaces/implementations/dynamoDBClothingRepository.js:138 | with distinct keys, reading entry i's key gives entry i's value |
| Js.LastKeyFresh | detached/src/modules/clothing/repository.js:84 | with distinct keys, the last key is absent from the entries before it |
| Js.AsciiLower | detached/src/lambdaDispatcher.js:12 | lowercasing keeps the length, leaves no ASCII capital, puts the letter 32 code points on (its small form) where a capital was and keeps every other character |
| Js.AsciiLowerIdempotent | detached/src/lambdaDispatcher.js:12 | lowercasing twice equals lowercasing once |
| Js.NatToString | attached/src/interfaces/implementations/dynamoDBClothingRepository.js:135-136 | the decimal text of an index is non-empty |
| Js.NatToStringInjective | attached/src/interfaces/implementations/dynamoDBClothingRepository.js:135-136 | different indexes have different decimal texts |
| LambdaHandlers.GetHandler | detached/src/modules/clothing/handlers/get.js:12-47 | the id is the path parameter, else the query-string one (`ResolveId`); 400 with no id from either source, 500 on failure, 404 when absent, else 200 with the record |
| LambdaHandlers.CreateHandler | detached/src/modules/clothing/handlers/create.js:14-54 | an absent body reads as {} (`ParseBody`); 400 "Invalid JSON body" for unparsable text, 400 for failed full validation with the table unchanged; 201 with the created item from the unchanged payload, or 500 |
| LambdaHandlers.UpdateHandler | detached/src/modules/clothing/handlers/update.js:13-78 | guards path id, body, an updatable key (`HasUpdatableKey`: some key among the seven, whatever its value), partial validation, existence in order; failing guards leave the table unchanged; 404 never writes; repository errors give 500 |
| LambdaHandlers.EmptyNamePassesGuardsButWritesNothing | detached/src/modules/clothing/handlers/update.js:34-77 | {name: ""} passes every guard but sanitises to nothing, so the update ends in 500 |
| LambdaHandlers.LinkAloneIsNoUpdate | detached/src/modules/clothing/handlers/update.js:34-43 | a payload with only link has no updatable key, though the repository would write it |
| ClothingModel.ConstructorCoercions | attached/src/modules/clothing/model.js:2-13 | `NewClothingItem`: five fields copied; price always Number(price) (NaN when absent); wishlist is truthiness; notes/link/reference the value or "" |
| ClothingModel.ToPayload | attached/src/modules/clothing/model.js:2-12 | an item's ten fields as an object with distinct keys |
| ClothingModel.ConstructionIdempotent | attached/src/modules/clothing/model.js:2-13 | constructing from a constructed item gives the same item |
| LambdaDispatcher.AliasesDisjoint | detached/src/lambdaDispatcher.js:29-62 | no name labels two branches |
| LambdaDispatcher.RouteExact | detached/src/lambdaDispatcher.js:29-62 | a name selects a handler iff it is one of that handler's labels |
| LambdaDispatcher.PreflightFirst | detached/src/lambdaDispatcher.js:24-27 | `Dispatch`: OPTIONS in either method field selects the options handler whatever the name |
| LambdaDispatcher.NameDecides | detached/src/lambdaDispatcher.js:29-62 | `Dispatch`, otherwise: a label runs its handler and any other name gets 500 "Unknown handler <name>" |
| LambdaDispatcher.NameResolution | detached/src/lambdaDispatcher.js:12 | `HandlerName`: HANDLER_NAME, else AWS_LAMBDA_FUNCTION_NAME, else "get", case-insensitively; no configuration runs get |
| LambdaDispatcher.NameIgnoresCase | detached/src/lambdaDispatcher.js:12 | two handler names that differ only in ASCII letter case resolve to the same lowercased name and hence the same route |

## Left out

- Dynamo.PagedScan: models a store that omits the continuation key on a last page that is exactly full. A real table returns one whenever a page reaches the limit, so a table whose size is a multiple of the limit needs one extra, empty scan; `FullListingOfPagedStore`'s scan count holds for the modelled store only, while the listing result is the same.
- Express routing, middleware and server start-up; CORS headers; logging; async scheduling. The handlers are modelled as functions of their inputs.
- The Lambda `list` and `options` handlers. The listing is covered by the repositories' `FindAll` and by `Controller.GetAllClothing`.
- The Lambda `delete` handler: detached/src/modules/clothing/handlers/delete.js is not part of this model. The dispatcher only names it as a target.
- The controller's `deleteById` fallbacks (attached/src/modules/clothing/controller.js:135-139): the repository always has `delete`, so they are never taken.
- `Js.AsciiLower`: lowercases ASCII letters only. Routing and the wishlist flag do not depend on other letters, since no dispatcher label and not "true" contain one. The dispatcher's 500 message "Unknown handler <name>" does: for a name with a non-ASCII capital the model keeps that capital, where `toLowerCase` would lower it.
- `Js.ToNumber`: the string grammar of `Number()` is the `parseNumber` parameter. Negative zero is not distinguished from zero.
- The `UpdateExpression` text is not modelled. A request is its list of (name placeholder, value placeholder) assignments and its two maps; the "SET a = b, …" string made from them is left out.
- `Js.JsVal`: only primitive values. Nested objects and arrays as attribute values are not modelled.
- `LambdaHandlers.JsonParser`: a JSON text that is not an object is given as the payload destructuring sees in it. `LambdaHandlers.UpdateHandler` assumes parsed objects have distinct keys, as JSON objects do.
- `ServerRepository.ClothingRepository.FindAll` and `LambdaRepository.ClothingRepository.FindAll`: pages come from the `scan` parameter, not from `items`. `Dynamo.FullListingOfPagedStore` shows what a store paging through its records in order yields.
- `Dynamo.Stored`: the store's answer to an update on a missing id is modelled as creating the record (DynamoDB's `UpdateCommand` upserts). Both update handlers check existence first.
- SDK marshalling is not modelled: the `undefined` removal and empty-value options (detached/src/modules/clothing/repository.js:19-24), and the attached client's refusal of `undefined` attributes. `ServerRepository.NewRecord` stores such an attribute as `Undef`.
- Key-type checks are not modelled. `LambdaRepository.ClothingRepository.Create` accepts any caller-supplied `id` value as the key, where DynamoDB would reject a non-string one. Store-side rejections are covered only by the `fault` parameter.
- Table name, region and endpoint selection from the environment. The dispatcher's environment variables are parameters of `LambdaDispatcher.HandlerName`, with "" for unset.
