/** The JSON envelope every handler answers with: the `ResponseError` record
    with its fluent setters, and the `Success` / `Error` / `Pagination` replies. */
module Response {

  import opened Results
  import opened GoInts

  // HTTP status codes used by the handlers (net/http).
  const StatusOK: int := 200
  const StatusCreated: int := 201
  const StatusBadRequest: int := 400
  const StatusUnauthorized: int := 401
  const StatusPaymentRequired: int := 402
  const StatusNotFound: int := 404
  const StatusConflict: int := 409
  const StatusInternalServerError: int := 500

  type ErrorCode = string

  /** An API error; the creation timestamp is not modelled (no reply renders it). */
  datatype ResponseError = ResponseError(
    status: int,
    code: ErrorCode,
    message: string,
    details: string,
    path: string,
    requestId: string)

  /** A fresh error: status, code and message as given, every optional field empty. */
  function NewResponseError(status: int, code: ErrorCode, message: string): (e: ResponseError)
    ensures e.status == status && e.code == code && e.message == message
    ensures e.details == "" && e.path == "" && e.requestId == ""
  {
    ResponseError(status, code, message, "", "", "")
  }

  /** `e.WithDetails(d)`: sets the details and keeps every other field. */
  function WithDetails(e: ResponseError, details: string): (r: ResponseError)
    ensures r.details == details
    ensures r.status == e.status && r.code == e.code && r.message == e.message
    ensures r.path == e.path && r.requestId == e.requestId
  {
    e.(details := details)
  }

  /** `e.WithPath(p)`: sets the path and keeps every other field. */
  function WithPath(e: ResponseError, path: string): (r: ResponseError)
    ensures r.path == path
    ensures r.status == e.status && r.code == e.code && r.message == e.message
    ensures r.details == e.details && r.requestId == e.requestId
  {
    e.(path := path)
  }

  /** `e.WithRequestID(id)`: sets the request id and keeps every other field. */
  function WithRequestId(e: ResponseError, requestId: string): (r: ResponseError)
    ensures r.requestId == requestId
    ensures r.status == e.status && r.code == e.code && r.message == e.message
    ensures r.details == e.details && r.path == e.path
  {
    e.(requestId := requestId)
  }

  /** Setting the same field twice keeps only the second value. */
  lemma SecondSetterWins(e: ResponseError, a: string, b: string)
    ensures WithDetails(WithDetails(e, a), b) == WithDetails(e, b)
    ensures WithPath(WithPath(e, a), b) == WithPath(e, b)
    ensures WithRequestId(WithRequestId(e, a), b) == WithRequestId(e, b)
  {
  }

  /** Setters on different fields can be chained in any order. */
  lemma SettersCommute(e: ResponseError, d: string, p: string, id: string)
    ensures WithPath(WithDetails(e, d), p) == WithDetails(WithPath(e, p), d)
    ensures WithRequestId(WithDetails(e, d), id) == WithDetails(WithRequestId(e, id), d)
    ensures WithRequestId(WithPath(e, p), id) == WithPath(WithRequestId(e, id), p)
  {
  }

  // ----- replies -----

  datatype PageMeta = PageMeta(total: int, page: int, limit: int, totalPages: int)

  /** The JSON body of a reply. `ErrorBody` is `{success: false, error, message, details}`,
      `SuccessBody` is `{success: true, data}`, `PageBody` adds `meta`, and `StatusBody` is
      the `{status: "success", message, data?}` shape that some handlers write directly. */
  datatype Body<D> =
    | ErrorBody(code: ErrorCode, message: string, details: string)
    | SuccessBody(data: D)
    | PageBody(data: D, meta: PageMeta)
    | StatusBody(message: string, payload: Option<D>)
  {
    /** The value of the `success` flag of the envelopes that carry one. */
    predicate SuccessFlag()
    {
      !ErrorBody?
    }
  }

  datatype Reply<D> = Reply(status: int, body: Body<D>)

  /** `response.Success`: the given status with `success = true` and the data untouched. */
  function Success<D>(status: int, data: D): (r: Reply<D>)
    ensures r.status == status
    ensures r.body.SuccessBody? && r.body.SuccessFlag() && r.body.data == data
  {
    Reply(status, SuccessBody(data))
  }

  /** `response.Error`: the error's own status, `success = false`, and its code,
      message and details copied verbatim (path and request id are not rendered). */
  function Error<D>(e: ResponseError): (r: Reply<D>)
    ensures r.status == e.status
    ensures !r.body.SuccessFlag()
    ensures r.body.code == e.code && r.body.message == e.message && r.body.details == e.details
  {
    Reply(e.status, ErrorBody(e.code, e.message, e.details))
  }

  /** `(total + limit - 1) / limit` evaluated in Go's 64-bit `int`: wrap-around on
      overflow, quotient truncated toward zero. `limit == 0` is a run-time panic in Go. */
  function TotalPages(total: int, limit: int): (pages: int)
    requires IsInt64(total) && IsInt64(limit) && limit != 0
    ensures IsInt64(pages)
  {
    Wrap64(Quot(Wrap64(total + limit - 1), limit))
  }

  /** Without overflow, the 64-bit evaluation agrees with exact arithmetic. */
  lemma TotalPagesExact(total: int, limit: int)
    requires IsInt64(total) && IsInt64(limit)
    requires 0 <= total && 0 < limit && total + limit - 1 <= MaxInt64
    ensures TotalPages(total, limit) == (total + limit - 1) / limit
  {
    var n := total + limit - 1;
    QuotOfNonNegative(n, limit);
    DivisionShrinks(n, limit);
  }

  lemma MulNonNegative(a: int, b: int)
    requires a >= 0 && b >= 0
    ensures a * b >= 0
  {
  }

  lemma DivisionShrinks(n: int, d: int)
    requires 0 <= n && 0 < d
    ensures 0 <= n / d <= n
  {
    var q, r := n / d, n % d;
    assert n == q * d + r && 0 <= r < d;
    if q < 0 {
      MulNonNegative(-q - 1, d);
      assert false;
    }
    if q > n {
      MulNonNegative(q, d - 1);
      assert false;
    }
  }

  /** `(total + limit - 1) / limit` rounds `total / limit` up. */
  lemma RoundedUpQuotient(total: int, limit: int)
    requires 0 <= total && 0 < limit
    ensures ((total + limit - 1) / limit) * limit >= total
    ensures total > 0 ==> ((total + limit - 1) / limit - 1) * limit < total
    ensures total == 0 ==> (total + limit - 1) / limit == 0
  {
    var n := total + limit - 1;
    var q, rem := n / limit, n % limit;
    assert n == q * limit + rem && 0 <= rem < limit;
    assert (q - 1) * limit == q * limit - limit;
  }

  /** In the non-overflowing range the page count is the ceiling of `total / limit`:
      enough pages for every item, and no page wholly empty. */
  lemma TotalPagesIsCeiling(total: int, limit: int)
    requires IsInt64(total) && IsInt64(limit)
    requires 0 <= total && 0 < limit && total + limit - 1 <= MaxInt64
    ensures TotalPages(total, limit) * limit >= total
    ensures total > 0 ==> (TotalPages(total, limit) - 1) * limit < total
    ensures total == 0 ==> TotalPages(total, limit) == 0
  {
    TotalPagesExact(total, limit);
    RoundedUpQuotient(total, limit);
  }

  /** `response.Pagination`: a success reply whose meta echoes the paging
      arguments and carries the page count. */
  function Pagination<D>(status: int, data: D, total: int, page: int, limit: int): (r: Reply<D>)
    requires IsInt64(total) && IsInt64(limit) && limit != 0
    ensures r.status == status && r.body.PageBody? && r.body.SuccessFlag() && r.body.data == data
    ensures r.body.meta.total == total && r.body.meta.page == page && r.body.meta.limit == limit
    ensures 0 <= total && 0 < limit && total + limit - 1 <= MaxInt64 ==>
              r.body.meta.totalPages * limit >= total
              && (total > 0 ==> (r.body.meta.totalPages - 1) * limit < total)
              && (total == 0 ==> r.body.meta.totalPages == 0)
  {
    var pages := TotalPages(total, limit);
    var r := Reply(status, PageBody(data, PageMeta(total, page, limit, pages)));
    if 0 <= total && 0 < limit && total + limit - 1 <= MaxInt64 then
      TotalPagesIsCeiling(total, limit);
      r
    else
      r
  }
}
