/** The response envelope every endpoint returns (`ApiResponse<T>`,
    `ApiPagedResponse<T>`, `PagedData<T>`) and the HTTP status it travels with. */
module ApiResponses {
  import opened Base

  /** An exception: its message and the exception it wraps, if any. */
  datatype Exception = Exception(message: string, inner: Option<Exception>)

  /** The number of exceptions along an `InnerException` chain. */
  function ChainLength(e: Option<Exception>): nat
    decreases e
  {
    match e
    case None => 0
    case Some(x) => 1 + ChainLength(x.inner)
  }

  /** The messages along an `InnerException` chain, outermost first. */
  function Messages(e: Option<Exception>): (r: seq<string>)
    ensures |r| == ChainLength(e)
    ensures e.Some? ==> |r| > 0 && r[0] == e.value.message
    decreases e
  {
    match e
    case None => []
    case Some(x) => [x.message] + Messages(x.inner)
  }

  /** The i-th message is the message of the exception reached by following
      `InnerException` i times. */
  function Nth(e: Option<Exception>, i: nat): Option<Exception>
    decreases i
  {
    if i == 0 || e.None? then e else Nth(e.value.inner, i - 1)
  }

  lemma {:induction false} MessagesFollowChain(e: Option<Exception>, i: nat)
    requires i < ChainLength(e)
    ensures Nth(e, i).Some? && Messages(e)[i] == Nth(e, i).value.message
    decreases i
  {
    if i > 0 {
      MessagesFollowChain(e.value.inner, i - 1);
    }
  }

  /** The `for (cur = exception; cur != null; cur = cur.InnerException)` loop
      of `ErrorResult`, which builds the error list one message at a time. */
  method CollectErrors(e: Option<Exception>) returns (errors: seq<string>)
    ensures errors == Messages(e)
  {
    errors := [];
    var cur := e;
    while cur.Some?
      invariant errors + Messages(cur) == Messages(e)
      decreases cur
    {
      errors := errors + [cur.value.message];
      cur := cur.value.inner;
    }
  }

  /** `ApiResponse<T>`; `data` and `errors` are the nullable properties. */
  datatype ApiResponse<T> = ApiResponse(success: bool, data: Option<T>, message: string, errors: Option<seq<string>>)

  /** `PagedData<T>`. */
  datatype PagedData<T> = PagedData(items: seq<T>, nextOffset: int, hasMore: bool, totalCount: int)

  /** `ApiPagedResponse<T>` has exactly the shape of an `ApiResponse` whose
      data is a page. */
  type ApiPagedResponse<T> = ApiResponse<PagedData<T>>

  /** `SuccessResult(data, message = "")`. */
  function SuccessResult<T>(data: T, message: string := ""): (r: ApiResponse<T>)
    ensures r.success && r.data == Some(data) && r.message == message
    ensures r.errors.None?
  {
    ApiResponse(true, Some(data), message, None)
  }

  /** `ErrorResult(exception, message)`: no data, and the error list holds
      one message per exception of the chain (none for a `null` exception). */
  function ErrorResult<T>(e: Option<Exception>, message: string): (r: ApiResponse<T>)
    ensures !r.success && r.data.None? && r.message == message
    ensures r.errors.Some? && |r.errors.value| == ChainLength(e)
    ensures forall i :: 0 <= i < |r.errors.value| ==> Nth(e, i).Some? && r.errors.value[i] == Nth(e, i).value.message
  {
    forall i | 0 <= i < ChainLength(e) ensures Nth(e, i).Some? && Messages(e)[i] == Nth(e, i).value.message {
      MessagesFollowChain(e, i);
    }
    ApiResponse(false, None, message, Some(Messages(e)))
  }

  /** The error result for a freshly thrown exception with no inner one. */
  function Fail<T>(exceptionMessage: string, message: string): (r: ApiResponse<T>)
    ensures !r.success && r.data.None? && r.message == message
    ensures r.errors == Some([exceptionMessage])
  {
    var e := Some(Exception(exceptionMessage, None));
    assert Nth(e, 0) == e && ChainLength(e) == 1;
    var r: ApiResponse<T> := ErrorResult(e, message);
    assert r.errors.value == [exceptionMessage];
    r
  }

  /** `ApiPagedResponse<T>.SuccessResult`. */
  function PagedSuccessResult<T>(data: PagedData<T>, message: string := ""): (r: ApiPagedResponse<T>)
    ensures r.success && r.data == Some(data) && r.message == message && r.errors.None?
  {
    SuccessResult(data, message)
  }

  /** `ApiPagedResponse<T>.ErrorResult`, whose message defaults to "". */
  function PagedErrorResult<T>(e: Option<Exception>, message: string := ""): (r: ApiPagedResponse<T>)
    ensures !r.success && r.data.None? && r.message == message
    ensures r.errors.Some? && |r.errors.value| == ChainLength(e)
    ensures forall i :: 0 <= i < |r.errors.value| ==> Nth(e, i).Some? && r.errors.value[i] == Nth(e, i).value.message
  {
    ErrorResult(e, message)
  }

  /** The HTTP status codes the endpoints answer with. */
  datatype Status = Ok | Created | BadRequest | NotFound | Unauthorized | ServerError

  /** An endpoint's answer: a status and an envelope. */
  datatype Reply<T> = Reply(status: Status, body: ApiResponse<T>)

  /** What reaches the client: a reply, or an exception nothing catches
      (which the host turns into a server error). */
  datatype Response<T> = Answer(reply: Reply<T>) | Thrown(exception: Exception)
}
