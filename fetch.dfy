/**
 * The request loop of `extract_post` (main.py): up to three GET requests of the
 * post's API endpoint, stopping at the first answer that has status 200 and a
 * body that parses as JSON.
 *
 * The network is replaced by its answers: `answer(Request(url, cookie, k))` is
 * what the k-th attempt (from 0) gets back. The random delay before each attempt
 * is left out.
 */
module Fetch {
  import opened Options

  /** How many attempts `range(3)` allows. */
  const MaxAttempts: nat := 3

  /** One GET: the URL, the `Cookie` header sent with it, and which attempt it is. */
  datatype Request = Request(url: string, cookie: string, attempt: nat)

  /**
   * What one GET gives: an HTTP answer with its status and, when the body
   * parses, the parsed document; or an exception from `requests.get` itself
   * (a timeout, a refused connection), which nothing catches.
   */
  datatype Response<T> = Answered(status: int, parsed: Option<T>) | Raised

  /** How the loop ends: data from attempt `attempts - 1`, three failed answers, or an exception at attempt `attempt`. */
  datatype Fetched<T> = Got(data: T, attempts: nat) | GaveUp | Died(attempt: nat)

  /** An answer the loop accepts: status 200 and a body that parses. */
  predicate Accepted<T>(r: Response<T>) {
    r.Answered? && r.status == 200 && r.parsed.Some?
  }

  /** An answer after which the loop tries again: a non-200 status, or a body that does not parse. */
  predicate Rejected<T>(r: Response<T>) {
    r.Answered? && !Accepted(r)
  }

  /** The loop from attempt `k` on. */
  function Retry<T>(answer: Request -> Response<T>, url: string, cookie: string, k: nat): Fetched<T>
    decreases MaxAttempts - k
  {
    if k >= MaxAttempts then GaveUp
    else
      var r := answer(Request(url, cookie, k));
      if r.Raised? then Died(k)
      else if Accepted(r) then Got(r.parsed.value, k + 1)
      else Retry(answer, url, cookie, k + 1)
  }

  /** The `for attempt in range(3)` loop with its `break`, `continue` and `else: return`. */
  method FetchWithRetry<T>(answer: Request -> Response<T>, url: string, cookie: string)
    returns (result: Fetched<T>)
    ensures result == Retry(answer, url, cookie, 0)
  {
    var attempt: nat := 0;
    while attempt < MaxAttempts
      invariant attempt <= MaxAttempts
      invariant Retry(answer, url, cookie, attempt) == Retry(answer, url, cookie, 0)
    {
      var r := answer(Request(url, cookie, attempt));
      if r.Raised? {
        return Died(attempt);
      }
      if r.status != 200 {
        attempt := attempt + 1;
        continue;
      }
      if r.parsed.Some? {
        return Got(r.parsed.value, attempt + 1);
      }
      attempt := attempt + 1;
    }
    return GaveUp;
  }

  /**
   * The loop's result, by cases: data from the first accepted attempt after only
   * rejected ones, within three attempts; giving up after exactly three rejected
   * answers; or an exception at the first attempt that raised, after only
   * rejected ones.
   */
  lemma {:induction false} RetryResult<T>(answer: Request -> Response<T>, url: string, cookie: string, k: nat)
    requires k <= MaxAttempts
    ensures var f := Retry(answer, url, cookie, k);
      match f
      case Got(d, n) =>
        k < n <= MaxAttempts && Accepted(answer(Request(url, cookie, n - 1)))
        && answer(Request(url, cookie, n - 1)).parsed == Some(d)
        && forall j :: k <= j < n - 1 ==> Rejected(answer(Request(url, cookie, j)))
      case GaveUp =>
        forall j :: k <= j < MaxAttempts ==> Rejected(answer(Request(url, cookie, j)))
      case Died(n) =>
        k <= n < MaxAttempts && answer(Request(url, cookie, n)).Raised?
        && forall j :: k <= j < n ==> Rejected(answer(Request(url, cookie, j)))
    decreases MaxAttempts - k
  {
    if k < MaxAttempts {
      var r := answer(Request(url, cookie, k));
      if !r.Raised? && !Accepted(r) {
        RetryResult(answer, url, cookie, k + 1);
      }
    }
  }

  /** Conversely, three rejected answers always end in giving up. */
  lemma GivesUpWhenAllRejected<T>(answer: Request -> Response<T>, url: string, cookie: string)
    requires forall j :: 0 <= j < MaxAttempts ==> Rejected(answer(Request(url, cookie, j)))
    ensures Retry(answer, url, cookie, 0) == GaveUp
  {
    assert Rejected(answer(Request(url, cookie, 0)));
    assert Rejected(answer(Request(url, cookie, 1)));
    assert Rejected(answer(Request(url, cookie, 2)));
  }

  /** An accepted first answer is used at once: one request is made. */
  lemma FirstAcceptedIsUsed<T>(answer: Request -> Response<T>, url: string, cookie: string)
    requires Accepted(answer(Request(url, cookie, 0)))
    ensures Retry(answer, url, cookie, 0) == Got(answer(Request(url, cookie, 0)).parsed.value, 1)
  {
  }
}
