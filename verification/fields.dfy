/** The field-name lists the validators, handlers and repositories test against. */
module Fields {
  import opened Js

  /** Required by full validation, in the order a missing-fields message lists them. */
  const Required: seq<string> := ["name", "brand", "size", "color", "price"]

  /**
   * The keys that make a request an update (controller and update handler),
   * and the update whitelist of the HTTP server's repository.
   */
  const Updatable: seq<string> := ["name", "brand", "size", "color", "price", "wishlist", "notes"]

  /** The update whitelist of the serverless repository: two more keys than `Updatable`. */
  const LambdaWhitelist: seq<string> := Updatable + ["link", "reference"]

  /** `Object.keys(payload || {}).some((k) => updatableFields.includes(k))`, whatever the values. */
  predicate HasUpdatableKey(p: Payload)
  {
    exists i :: 0 <= i < |p| && p[i].0 in Updatable
  }
}
