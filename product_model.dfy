/** The entities of the product catalog service and the errors it returns to callers. */
module ProductModel {

  datatype Option<+T> = None | Some(value: T)

  datatype Result<+T, +E> = Ok(value: T) | Err(error: E)

  /** A price: ISO currency code, whole units and nano units (the protobuf Money message). */
  datatype Money = Money(currencyCode: string, units: int, nanos: int)

  /** One catalog product. Products are never changed field by field; a new catalog replaces the old. */
  datatype Product = Product(
    id: string,
    name: string,
    description: string,
    picture: string,
    priceUsd: Money,
    categories: seq<string>)

  /** The gRPC status codes the service itself produces. */
  datatype Code = NotFound | Internal

  /** A Go `error` value: either a gRPC status built with `status.Errorf`, or an ordinary
      error (`fmt.Errorf`) of which only its text is observable. */
  datatype Error = Status(code: Code, message: string) | Plain(text: string)

  function CodeName(c: Code): string
  {
    match c
    case NotFound => "NotFound"
    case Internal => "Internal"
  }

  /** The text `err.Error()` yields; a gRPC status renders as "rpc error: code = C desc = M". */
  function ErrorText(e: Error): (t: string)
    ensures e.Plain? ==> t == e.text
    ensures e.Status? ==> |t| > |e.message| && t[|t| - |e.message|..] == e.message
  {
    match e
    case Status(c, m) => "rpc error: code = " + CodeName(c) + " desc = " + m
    case Plain(t) => t
  }
}
