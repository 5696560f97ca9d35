/** The HTTP server's `ClothingItem` model: a record built from a plain object with fixed coercions. */
module ClothingModel {
  import opened Js

  /** A clothing item as the constructor leaves it. */
  datatype ClothingItem = ClothingItem(
    id: JsVal,
    name: JsVal,
    brand: JsVal,
    size: JsVal,
    color: JsVal,
    price: JsNumber,
    wishlist: bool,
    notes: JsVal,
    link: JsVal,
    reference: JsVal)

  /** `v || ""`. */
  function OrEmpty(v: JsVal): JsVal
  {
    if Truthy(v) then v else Str("")
  }

  /** `new ClothingItem(p)`. */
  function NewClothingItem(p: Payload, parseNumber: NumberParser): ClothingItem
  {
    ClothingItem(
      Get(p, "id"), Get(p, "name"), Get(p, "brand"), Get(p, "size"), Get(p, "color"),
      ToNumber(Get(p, "price"), parseNumber),
      Truthy(Get(p, "wishlist")),
      OrEmpty(Get(p, "notes")), OrEmpty(Get(p, "link")), OrEmpty(Get(p, "reference")))
  }

  /**
   * The constructor copies id, name, brand, size and color unchanged; the
   * price is always a number (NaN when absent, 0 when `null`); the wishlist
   * is the input's truthiness; notes, link and reference are the input
   * when truthy and "" otherwise (so 0 and `null` become "").
   */
  lemma ConstructorCoercions(p: Payload, parseNumber: NumberParser)
    ensures var item := NewClothingItem(p, parseNumber);
      && item.id == Get(p, "id") && item.name == Get(p, "name") && item.brand == Get(p, "brand")
      && item.size == Get(p, "size") && item.color == Get(p, "color")
      && item.price == ToNumber(Get(p, "price"), parseNumber)
      && (Get(p, "price") == Undef ==> item.price == NaN)
      && (Get(p, "price") == Null ==> item.price == Finite(0.0))
      && item.wishlist == Truthy(Get(p, "wishlist"))
      && (Truthy(item.notes) || item.notes == Str(""))
      && (Truthy(item.link) || item.link == Str(""))
      && (Truthy(item.reference) || item.reference == Str(""))
      && (Truthy(Get(p, "notes")) ==> item.notes == Get(p, "notes"))
      && (!Truthy(Get(p, "notes")) ==> item.notes == Str(""))
      && (Truthy(Get(p, "link")) ==> item.link == Get(p, "link"))
      && (!Truthy(Get(p, "link")) ==> item.link == Str(""))
      && (Truthy(Get(p, "reference")) ==> item.reference == Get(p, "reference"))
      && (!Truthy(Get(p, "reference")) ==> item.reference == Str(""))
  {
  }

  /** The item as a plain object with its ten fields, as `{...item}` would list them. */
  function ToPayload(item: ClothingItem): (p: Payload)
    ensures DistinctKeys(p)
  {
    [("id", item.id), ("name", item.name), ("brand", item.brand), ("size", item.size), ("color", item.color),
     ("price", Num(item.price)), ("wishlist", Bool(item.wishlist)),
     ("notes", item.notes), ("link", item.link), ("reference", item.reference)]
  }

  /** Constructing from a constructed item changes nothing: the coercions are idempotent. */
  lemma ConstructionIdempotent(p: Payload, parseNumber: NumberParser)
    ensures NewClothingItem(ToPayload(NewClothingItem(p, parseNumber)), parseNumber) == NewClothingItem(p, parseNumber)
  {
    var item := NewClothingItem(p, parseNumber);
    var q := ToPayload(item);
    GetEntry(q, 0); GetEntry(q, 1); GetEntry(q, 2); GetEntry(q, 3); GetEntry(q, 4);
    GetEntry(q, 5); GetEntry(q, 6); GetEntry(q, 7); GetEntry(q, 8); GetEntry(q, 9);
  }
}
