/** Validator verdicts and the uniform `{success, data, error, message, count}` response envelope. */
module Envelope {
  import opened Outcomes
  import opened Dynamo

  /** `{valid: true}` or `{valid: false, message}`. */
  datatype Verdict = Valid | Invalid(message: string)

  /** What a success envelope carries under `data`. */
  datatype Data = Record(item: Item) | Records(items: seq<Item>)

  /** `{success: false, error}` or `{success: true, data, message?, count?}`. */
  datatype Body =
    | Failure(error: string)
    | Success(data: Data, message: Option<string>, count: Option<nat>)

  datatype Response = Response(status: nat, body: Body)

  function BadRequest(error: string): Response
  {
    Response(400, Failure(error))
  }

  const IdRequired := BadRequest("id parameter is required")
  const NotFound := Response(404, Failure("Clothing item not found"))
  /** Every unexpected failure: no detail of the underlying error is exposed. */
  const InternalError := Response(500, Failure("Internal Server Error"))
}
