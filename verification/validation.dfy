/**
 * The serverless functions' payload validator (the lenient variant):
 * `validateClothingPayload(payload, requireAllFields)`.
 */
module Validation {
  import opened Js
  import opened Fields
  import opened Envelope

  /** name, brand, size and color are missing when falsy; price only when undefined or null. */
  predicate IsMissing(p: Payload, f: string)
  {
    if f == "price" then Get(p, f) == Undef || Get(p, f) == Null else !Truthy(Get(p, f))
  }

  /** `[f]` when `p` lacks `f`, else nothing: one conditional push of the validators. */
  function IfMissing(p: Payload, f: string): seq<string>
  {
    if IsMissing(p, f) then [f] else []
  }

  /** The fields of `fs` that `p` lacks, in the order of `fs`. */
  function MissingAmong(fs: seq<string>, p: Payload): seq<string>
  {
    if fs == [] then []
    else MissingAmong(fs[..|fs| - 1], p) + IfMissing(p, fs[|fs| - 1])
  }

  /** The required fields `p` lacks, in the order name, brand, size, color, price. */
  function MissingFields(p: Payload): seq<string>
  {
    MissingAmong(Required, p)
  }

  function MissingMessage(missing: seq<string>): string
  {
    "Missing required fields: " + Join(missing, ", ")
  }

  /** `price !== undefined && (isNaN(price) || Number(price) < 0)`. */
  predicate LenientPriceRejected(p: Payload, parseNumber: NumberParser)
  {
    var n := ToNumber(Get(p, "price"), parseNumber);
    Get(p, "price") != Undef && (n == NaN || IsNegative(n))
  }

  /** The verdict of the lenient validator: missing fields first, then the price. */
  function LenientVerdict(p: Payload, requireAllFields: bool, parseNumber: NumberParser): Verdict
  {
    if requireAllFields && MissingFields(p) != [] then Invalid(MissingMessage(MissingFields(p)))
    else if LenientPriceRejected(p, parseNumber) then Invalid("Invalid price value")
    else Valid
  }

  /** `validateClothingPayload(payload, requireAllFields)`: collects the missing fields, then checks the price. */
  method ValidateClothingPayload(payload: Payload, requireAllFields: bool, parseNumber: NumberParser)
    returns (verdict: Verdict)
    ensures verdict == LenientVerdict(payload, requireAllFields, parseNumber)
  {
    var name, brand, size, color := Get(payload, "name"), Get(payload, "brand"), Get(payload, "size"), Get(payload, "color");
    var price := Get(payload, "price");
    var missing: seq<string> := [];
    if requireAllFields {
      if !Truthy(name) { missing := missing + ["name"]; }
      assert missing == IfMissing(payload, "name");
      if !Truthy(brand) { missing := missing + ["brand"]; }
      assert missing == IfMissing(payload, "name") + IfMissing(payload, "brand");
      if !Truthy(size) { missing := missing + ["size"]; }
      assert missing == IfMissing(payload, "name") + IfMissing(payload, "brand") + IfMissing(payload, "size");
      if !Truthy(color) { missing := missing + ["color"]; }
      assert missing == IfMissing(payload, "name") + IfMissing(payload, "brand") + IfMissing(payload, "size") + IfMissing(payload, "color");
      if price == Undef || price == Null { missing := missing + ["price"]; }
      assert missing == IfMissing(payload, "name") + IfMissing(payload, "brand") + IfMissing(payload, "size") + IfMissing(payload, "color") + IfMissing(payload, "price");
      MissingFieldsInOrder(payload);
    }
    if |missing| > 0 {
      return Invalid("Missing required fields: " + Join(missing, ", "));
    }
    if price != Undef && (ToNumber(price, parseNumber) == NaN || IsNegative(ToNumber(price, parseNumber))) {
      return Invalid("Invalid price value");
    }
    return Valid;
  }

  /** A field is reported missing exactly when it is in `fs` and `p` lacks it. */
  lemma {:induction false} MissingAmongExact(fs: seq<string>, p: Payload)
    ensures forall f :: f in MissingAmong(fs, p) <==> f in fs && IsMissing(p, f)
  {
    if fs != [] {
      MissingAmongExact(fs[..|fs| - 1], p);
      assert fs == fs[..|fs| - 1] + [fs[|fs| - 1]];
    }
  }

  /** Checking one more field appends it to the report exactly when the payload lacks it. */
  lemma MissingSnoc(fs: seq<string>, f: string, p: Payload)
    ensures MissingAmong(fs + [f], p) == MissingAmong(fs, p) + IfMissing(p, f)
  {
    assert (fs + [f])[..|fs|] == fs;
  }

  /**
   * The report lists, in this order, name, brand, size, color and price,
   * each exactly when the payload lacks it.
   */
  lemma MissingFieldsInOrder(p: Payload)
    ensures MissingFields(p) ==
      IfMissing(p, "name") + IfMissing(p, "brand") + IfMissing(p, "size") + IfMissing(p, "color") + IfMissing(p, "price")
  {
    MissingSnoc([], "name", p);
    assert [] + ["name"] == ["name"];
    MissingSnoc(["name"], "brand", p);
    assert ["name"] + ["brand"] == ["name", "brand"];
    MissingSnoc(["name", "brand"], "size", p);
    assert ["name", "brand"] + ["size"] == ["name", "brand", "size"];
    MissingSnoc(["name", "brand", "size"], "color", p);
    assert ["name", "brand", "size"] + ["color"] == ["name", "brand", "size", "color"];
    MissingSnoc(["name", "brand", "size", "color"], "price", p);
    assert ["name", "brand", "size", "color"] + ["price"] == Required;
  }

  /**
   * With `requireAllFields`, the message names exactly the required fields
   * the payload lacks, joined by ", ".
   */
  lemma MissingFieldsExact(p: Payload, parseNumber: NumberParser)
    ensures forall f :: f in MissingFields(p) <==> f in Required && IsMissing(p, f)
    ensures MissingFields(p) != [] ==>
      LenientVerdict(p, true, parseNumber) == Invalid("Missing required fields: " + Join(MissingFields(p), ", "))
  {
    MissingAmongExact(Required, p);
  }

  /** An empty name is missing, while a price of 0 is present (and passes). */
  lemma EmptyStringMissingZeroPricePresent(p: Payload, parseNumber: NumberParser)
    requires Get(p, "name") == Str("")
    requires Get(p, "price") == Num(Finite(0.0))
    ensures "name" in MissingFields(p) && "price" !in MissingFields(p)
    ensures !LenientPriceRejected(p, parseNumber)
  {
    MissingAmongExact(Required, p);
  }

  /** Without `requireAllFields`, nothing is ever reported missing: the only possible failure is the price. */
  lemma PartialNeverReportsMissing(p: Payload, parseNumber: NumberParser)
    ensures LenientVerdict(p, false, parseNumber) == Valid || LenientVerdict(p, false, parseNumber) == Invalid("Invalid price value")
    ensures LenientVerdict(p, false, parseNumber).Invalid? <==> LenientPriceRejected(p, parseNumber)
  {
  }

  /** A missing-fields failure wins over a bad price: the price is only looked at once nothing is missing. */
  lemma MissingBeforePrice(p: Payload, parseNumber: NumberParser)
    requires MissingFields(p) != [] && LenientPriceRejected(p, parseNumber)
    ensures LenientVerdict(p, true, parseNumber) == Invalid(MissingMessage(MissingFields(p)))
  {
  }

  /**
   * A supplied price is rejected exactly when it converts to NaN or to a
   * negative number: 0 and a numeric string such as "5" pass; null passes
   * too, because `Number(null)` is 0.
   */
  lemma PriceRule(p: Payload, parseNumber: NumberParser)
    requires Get(p, "price") != Undef
    ensures LenientPriceRejected(p, parseNumber) <==>
      (ToNumber(Get(p, "price"), parseNumber) == NaN || IsNegative(ToNumber(Get(p, "price"), parseNumber)))
    ensures Get(p, "price") == Null ==> LenientVerdict(p, false, parseNumber) == Valid
    ensures Get(p, "price") == Str("5") && parseNumber("5") == Finite(5.0) ==> LenientVerdict(p, false, parseNumber) == Valid
    ensures Get(p, "price") == Num(Finite(-1.0)) ==> LenientVerdict(p, false, parseNumber) == Invalid("Invalid price value")
  {
  }

  /** Only name, brand, size, color and price are inspected: wishlist, notes and every other key are ignored. */
  lemma OnlyRequiredFieldsInspected(p: Payload, q: Payload, requireAllFields: bool, parseNumber: NumberParser)
    requires forall f :: f in Required ==> Get(p, f) == Get(q, f)
    ensures LenientVerdict(p, requireAllFields, parseNumber) == LenientVerdict(q, requireAllFields, parseNumber)
  {
    SameRequiredSameMissing(p, q);
    assert Get(p, "price") == Get(q, "price");
  }

  /** Payloads that agree on the required fields lack the same ones. */
  lemma SameRequiredSameMissing(p: Payload, q: Payload)
    requires forall f :: f in Required ==> Get(p, f) == Get(q, f)
    ensures MissingFields(p) == MissingFields(q)
  {
    assert Get(p, "name") == Get(q, "name") && Get(p, "brand") == Get(q, "brand");
    assert Get(p, "size") == Get(q, "size") && Get(p, "color") == Get(q, "color");
    assert Get(p, "price") == Get(q, "price");
    MissingFieldsInOrder(p);
    MissingFieldsInOrder(q);
  }
}
