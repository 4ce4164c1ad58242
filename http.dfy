/** What a route handler sends back: a JSON body, or an error status with its message. */
module Http {

  datatype Response<T> = Ok(body: T) | Error(status: int, message: string)

  /** The 401 every handler sends when the request carries no session user. */
  function Unauthorized<T>(): Response<T>
  {
    Error(401, "Unauthorized")
  }
}
