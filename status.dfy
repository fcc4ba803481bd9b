/** PixelMEDIA.PixelCore.Status and Status<T>: an immutable success flag and
    message, optionally with typed data, built through static factories. */
module StatusModel {
  import opened Wrappers
  import opened Values

  datatype Status = Status(success: bool, message: string) {
    /** Status.WithData(data): the same flag and message with Data set. */
    function WithData<T>(data: T): (r: TypedStatus<T>)
      ensures r.success == success && r.message == message && r.data == Some(data)
    {
      TypedStatus(success, message, Some(data))
    }
  }

  /** Status<T>. `data == None` stands for Data left at default(T). */
  datatype TypedStatus<T> = TypedStatus(success: bool, message: string, data: Option<T>) {
    /** Status<T> is a Status: the base part. */
    function AsStatus(): (r: Status)
      ensures r.success == success && r.message == message
    {
      Status(success, message)
    }
  }

  /** The implicit conversion operator bool(Status). */
  function ToBool(status: Status): (r: bool)
    ensures r <==> status.success
  {
    status.success
  }

  function Fail(message: string): (r: Status)
    ensures !ToBool(r) && r.message == message
  {
    Status(false, message)
  }

  /** Status.Fail(ex): a failure carrying the exception's message. */
  function FailException(ex: Exception): (r: Status)
    ensures !ToBool(r) && r.message == ex.message
  {
    Status(false, ex.message)
  }

  /** FailFormat(message, args): String.Format, which `format` stands for. */
  function FailFormat<A>(message: string, args: seq<A>, format: (string, seq<A>) -> string): (r: Status)
    ensures !ToBool(r) && r.message == format(message, args)
  {
    Status(false, format(message, args))
  }

  function Succeed(message: string): (r: Status)
    ensures ToBool(r) && r.message == message
  {
    Status(true, message)
  }

  function SucceedFormat<A>(message: string, args: seq<A>, format: (string, seq<A>) -> string): (r: Status)
    ensures ToBool(r) && r.message == format(message, args)
  {
    Status(true, format(message, args))
  }

  /** Succeed(): a success with String.Empty as its message. */
  function SucceedEmpty(): (r: Status)
    ensures ToBool(r) && r.message == ""
  {
    Status(true, "")
  }

  function SucceedWith<T>(message: string, data: T): (r: TypedStatus<T>)
    ensures ToBool(r.AsStatus()) && r.message == message && r.data == Some(data)
  {
    TypedStatus(true, message, Some(data))
  }

  function FailWith<T>(message: string, data: T): (r: TypedStatus<T>)
    ensures !ToBool(r.AsStatus()) && r.message == message && r.data == Some(data)
  {
    TypedStatus(false, message, Some(data))
  }

  /** Fail<T>(message): Data stays default(T). */
  function FailTyped<T>(message: string): (r: TypedStatus<T>)
    ensures !ToBool(r.AsStatus()) && r.message == message && r.data.None?
  {
    TypedStatus(false, message, None)
  }

  /** WithData and AsStatus are inverse views: attaching data and forgetting it
      gives the status back, and the typed factories agree with attaching data
      to the untyped ones. */
  lemma WithDataRoundTrip<T>(s: Status, x: T, m: string)
    ensures s.WithData(x).AsStatus() == s
    ensures ToBool(s.WithData(x).AsStatus()) == ToBool(s)
    ensures SucceedWith(m, x) == Succeed(m).WithData(x)
    ensures FailWith(m, x) == Fail(m).WithData(x)
  {
  }
}
