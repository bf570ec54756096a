/** An HTTP reply as the handlers send it: a status with a JSON body, or a
    status with the JSON object `{ message }`. */
module Http {

  datatype Reply<T> =
    | Json(status: nat, body: T)
    | Message(status: nat, message: string)
}
