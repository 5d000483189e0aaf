/** A BLOB store that keeps each BLOB at a URL below a base URI, reached with
    HTTP HEAD, GET, PUT and DELETE. Connecting is retried, with exponential
    backoff, when it fails with a transient error. The network is a
    transport function: the outcome of the n-th attempt at a request. */
module Http {
  import opened Common
  import opened KeyConstraint

  const DefaultMaxRetries: nat := 2
  const OctetStream := "application/octet-stream"

  // ---------------------------------------------------------------------------
  // The base URI.

  /** A parsed URI: everything up to the path (scheme, host, port), and the path. */
  datatype Uri = Uri(origin: string, path: string)
  {
    function ToString(): string { origin + path }
  }

  predicate EndsWithSlash(s: string)
  {
    s != [] && s[|s| - 1] == '/'
  }

  /** `initialize`: a `/` is appended to the base URI unless it already ends with one. */
  function Normalise(u: Uri): (r: Uri)
    ensures EndsWithSlash(r.ToString())
    ensures r.origin == u.origin
    ensures EndsWithSlash(u.ToString()) ==> r == u
    ensures !EndsWithSlash(u.ToString()) ==> r.path == u.path + "/"
  {
    if EndsWithSlash(u.ToString()) then u else Uri(u.origin, u.path + "/")
  }

  /** Normalising twice is normalising once. */
  lemma NormaliseIdempotent(u: Uri)
    ensures Normalise(Normalise(u)) == Normalise(u)
  {
  }

  /** The two base URIs of the examples, with and without the trailing slash,
      name the same store. */
  lemma NormaliseExamples()
    ensures Normalise(Uri("http://storeit.com", "/prefix")).ToString() == "http://storeit.com/prefix/"
    ensures Normalise(Uri("http://storeit.com", "/prefix/")).ToString() == "http://storeit.com/prefix/"
  {
    var u := Uri("http://storeit.com", "/prefix");
    assert u.ToString()[|u.ToString()| - 1] == 'x';
  }

  // ---------------------------------------------------------------------------
  // Backoff.

  function Pow2(i: nat): (r: nat)
    ensures r >= 1
  {
    if i == 0 then 1 else 2 * Pow2(i - 1)
  }

  /** The scaling factor `0.5 + rand * 0.1`, for a `Kernel.rand` in [0, 1). */
  function Scale(rand: real): (s: real)
    requires 0.0 <= rand < 1.0
    ensures 0.5 <= s < 0.6
  {
    0.5 + rand * 0.1
  }

  /** `retry_intervals(count)`: `2**i * scale` for each of the `count` retries. */
  function RetryIntervals(count: nat, rand: real): (r: seq<real>)
    requires 0.0 <= rand < 1.0
    ensures |r| == count
  {
    seq(count, i requires 0 <= i < count => Pow2(i) as real * Scale(rand))
  }

  /** The intervals start between 0.5 and 0.6 seconds and each doubles the one before. */
  lemma RetryIntervalsBackOff(count: nat, rand: real)
    requires 0.0 <= rand < 1.0
    ensures var r := RetryIntervals(count, rand);
      && (count > 0 ==> 0.5 <= r[0] < 0.6)
      && (forall i :: 0 < i < count ==> r[i] == 2.0 * r[i - 1])
  {
    var r := RetryIntervals(count, rand);
    forall i | 0 < i < count ensures r[i] == 2.0 * r[i - 1] {
      assert Pow2(i) == 2 * Pow2(i - 1);
    }
  }

  // ---------------------------------------------------------------------------
  // Requests, responses and the transport.

  /** The HTTP methods the store sends, and `Connect`: opening the
      connection and sending nothing, as `available?` does. */
  datatype Verb = Connect | Head | Get | Put | Delete

  datatype Request = Request(verb: Verb, path: string, contentType: Option<string>, body: Bytes)

  /** A response: its status and its body, as the segments `read_body` yields. */
  datatype Response = Response(status: int, segments: seq<Bytes>)
  {
    function Body(): Bytes { Concat(segments) }
  }

  /** One attempt at a request: a response, or an exception anywhere from
      connecting to reading the response. For a `Connect`, a response
      stands for a connection that was established. `delivered` holds the
      body segments already handed to a `read` block when the exception
      broke off the body of a 2xx; it is empty for every other exception. */
  datatype Attempt = Responded(response: Response) | Raised(error: Error, delivered: seq<Bytes>)

  /** The segments an attempt handed to the block before it raised. */
  function Partial(a: Attempt): seq<Bytes>
  {
    if a.Raised? then a.delivered else []
  }

  /** The segments the first `n` attempts handed to the block before they
      raised, in order. */
  function Delivered(transport: Transport, req: Request, n: nat): seq<Bytes>
  {
    if n == 0 then [] else Delivered(transport, req, n - 1) + Partial(transport(req, n - 1))
  }

  /** When no attempt broke off a body, nothing was handed on early. */
  lemma {:induction false} DeliveredEmpty(transport: Transport, req: Request, n: nat)
    requires forall j :: 0 <= j < n ==> Partial(transport(req, j)) == []
    ensures Delivered(transport, req, n) == []
  {
    if n > 0 {
      DeliveredEmpty(transport, req, n - 1);
    }
  }

  /** The outcome of the n-th attempt at a request. */
  type Transport = (Request, nat) -> Attempt

  /** `retryable_exceptions`. */
  predicate Retryable(e: Error)
  {
    e == EOFError || e == SystemCallError(ECONNRESET)
  }

  predicate IsSuccess(status: int) { 200 <= status < 300 }
  /** Net::HTTP reads no body for 204 No Content and 205 Reset Content:
      `read_body` is nil and yields nothing. */
  predicate HasBody(status: int) { status != 204 && status != 205 }
  const NotFound := 404

  /** `with_http_connection` from attempt `k` on, with `remaining` retries
      left: the response or the exception it ends with, and the number of
      attempts made so far. */
  function Connection(transport: Transport, req: Request, k: nat, remaining: nat): (Result<Response>, nat)
    decreases remaining
  {
    match transport(req, k)
    case Responded(resp) => (Ok(resp), k + 1)
    case Raised(e, _) =>
      if Retryable(e) && remaining > 0 then Connection(transport, req, k + 1, remaining - 1)
      else (Err(e), k + 1)
  }

  /** At most `maxRetries + 1` attempts are made; every attempt but the last
      raised a transient error; the result is that of the last attempt; and
      a transient error ends the call only once the retries are used up. */
  lemma {:induction false} ConnectionAttempts(transport: Transport, req: Request, k: nat, remaining: nat)
    ensures var (r, n) := Connection(transport, req, k, remaining);
      && k < n <= k + remaining + 1
      && (forall j :: k <= j < n - 1 ==> transport(req, j).Raised? && Retryable(transport(req, j).error))
      && (transport(req, n - 1).Responded? ==> r == Ok(transport(req, n - 1).response))
      && (transport(req, n - 1).Raised? ==> r == Err(transport(req, n - 1).error))
      && (r.Err? && Retryable(r.error) ==> n == k + remaining + 1)
    decreases remaining
  {
    match transport(req, k)
    case Responded(_) =>
    case Raised(e, _) =>
      if Retryable(e) && remaining > 0 {
        ConnectionAttempts(transport, req, k + 1, remaining - 1);
      }
  }

  /** An error that is not transient is raised by the first attempt, unretried. */
  lemma NonRetryableNotRetried(transport: Transport, req: Request, maxRetries: nat)
    requires transport(req, 0).Raised? && !Retryable(transport(req, 0).error)
    ensures Connection(transport, req, 0, maxRetries) == (Err(transport(req, 0).error), 1)
  {
  }

  /** Transient errors that keep happening: every retry is used, and the
      last error is raised. */
  lemma {:induction false} PersistentTransientError(transport: Transport, req: Request, k: nat, remaining: nat, e: Error)
    requires Retryable(e)
    requires forall j :: k <= j <= k + remaining ==> transport(req, j).Raised? && transport(req, j).error == e
    ensures Connection(transport, req, k, remaining) == (Err(e), k + remaining + 1)
    decreases remaining
  {
    if remaining > 0 {
      PersistentTransientError(transport, req, k + 1, remaining - 1, e);
    }
  }

  /** A transient error followed by a response: the retry recovers. */
  lemma TransientThenRecovers(transport: Transport, req: Request, maxRetries: nat, resp: Response)
    requires maxRetries >= 1 && transport(req, 0).Raised? && Retryable(transport(req, 0).error)
    requires transport(req, 1) == Responded(resp)
    ensures Connection(transport, req, 0, maxRetries) == (Ok(resp), 2)
  {
  }

  // ---------------------------------------------------------------------------
  // What each operation makes of the response.

  /** `exists?`: true exactly when the HEAD status is 200. */
  function ExistsResult(resp: Response): (b: bool)
    ensures b <==> resp.status == 200
  {
    resp.status == 200
  }

  /** `read`: nil for 404, the body for 2xx (nil for a 2xx without one),
      and `error!` for any other status. */
  function ReadResult(resp: Response): (r: Result<Option<Bytes>>)
    ensures resp.status == NotFound ==> r == Ok(None)
    ensures IsSuccess(resp.status) && HasBody(resp.status) ==> r == Ok(Some(resp.Body()))
    ensures IsSuccess(resp.status) && !HasBody(resp.status) ==> r == Ok(None)
    ensures !IsSuccess(resp.status) && resp.status != NotFound ==> r == Err(HttpStatusError(resp.status))
  {
    if resp.status == NotFound then Ok(None)
    else if IsSuccess(resp.status) then (if HasBody(resp.status) then Ok(Some(resp.Body())) else Ok(None))
    else Err(HttpStatusError(resp.status))
  }

  /** The segments `read_body` hands to the block from the final response:
      the body of a 2xx that has one, and nothing otherwise. */
  function BlockSegments(c: Result<Response>): (segs: seq<Bytes>)
    ensures segs != [] ==> c.Ok? && IsSuccess(c.value.status) && HasBody(c.value.status)
    ensures c.Ok? && IsSuccess(c.value.status) && HasBody(c.value.status) ==> segs == c.value.segments
  {
    if c.Ok? && IsSuccess(c.value.status) && HasBody(c.value.status) then c.value.segments else []
  }

  /** An `EOFError` in the middle of a body is retried, and the block sees
      the body again from the start: a first attempt that handed on `s1`
      before breaking off, and a second that answers 200 with `s1, s2`,
      make the block see `s1, s1, s2`. */
  lemma RetriedBodyRepeats(transport: Transport, req: Request, maxRetries: nat, s1: Bytes, s2: Bytes)
    requires maxRetries >= 1
    requires transport(req, 0) == Raised(EOFError, [s1])
    requires transport(req, 1) == Responded(Response(200, [s1, s2]))
    ensures var (c, n) := Connection(transport, req, 0, maxRetries);
      Delivered(transport, req, n) + BlockSegments(c) == [s1, s1, s2]
  {
    assert Connection(transport, req, 0, maxRetries) == (Ok(Response(200, [s1, s2])), 2);
    assert Delivered(transport, req, 1) == [] + [s1];
    assert Delivered(transport, req, 2) == Delivered(transport, req, 1) + [];
  }

  /** `write`: nil once the PUT is answered with 2xx, and `error!` otherwise. */
  function WriteResult(resp: Response): (o: Outcome)
    ensures o.Pass? <==> IsSuccess(resp.status)
    ensures o.Fail? ==> o.error == HttpStatusError(resp.status)
  {
    if IsSuccess(resp.status) then Pass else Fail(HttpStatusError(resp.status))
  }

  /** `delete`: true for 2xx, false for 404, and `error!` otherwise. */
  function DeleteResult(resp: Response): (r: Result<bool>)
    ensures r == Ok(true) <==> IsSuccess(resp.status)
    ensures r == Ok(false) <==> resp.status == NotFound
    ensures r.Err? ==> r.error == HttpStatusError(resp.status)
  {
    if IsSuccess(resp.status) then Ok(true)
    else if resp.status == NotFound then Ok(false)
    else Err(HttpStatusError(resp.status))
  }

  /** The value an operation returns: the handler's result on a response,
      or the exception the connection ended with. */
  function Handled<T>(c: Result<Response>, handle: Response -> Result<T>): Result<T>
  {
    match c
    case Ok(resp) => handle(resp)
    case Err(e) => Err(e)
  }

  // ---------------------------------------------------------------------------
  // The store.

  class HttpStore {
    const baseUri: Uri
    const maxRetries: nat

    /** `new(uri, max_retries: n)`: the base URI normalised to end with `/`,
        and two retries unless told otherwise. */
    constructor (uri: Uri, maxRetries: Option<nat>)
      ensures baseUri == Normalise(uri)
      ensures this.maxRetries == (if maxRetries.Some? then maxRetries.value else DefaultMaxRetries)
    {
      baseUri := Normalise(uri);
      this.maxRetries := if maxRetries.Some? then maxRetries.value else DefaultMaxRetries;
    }

    /** `with_http_connection`: attempts the request until it gets a response
        or a non-transient error, sleeping before each retry, and raises the
        last transient error once the intervals run out. */
    method WithHttpConnection(transport: Transport, req: Request, rand: real)
        returns (r: Result<Response>, attempts: nat, slept: seq<real>, partial: seq<Bytes>)
      requires 0.0 <= rand < 1.0
      ensures (r, attempts) == Connection(transport, req, 0, maxRetries)
      ensures 1 <= attempts <= maxRetries + 1
      ensures slept == RetryIntervals(maxRetries, rand)[..attempts - 1]
      ensures partial == Delivered(transport, req, attempts)
    {
      var intervals := RetryIntervals(maxRetries, rand);
      var remaining := intervals;
      slept := [];
      partial := [];
      attempts := 0;
      while true
        invariant attempts <= maxRetries
        invariant remaining == intervals[attempts..] && slept == intervals[..attempts]
        invariant partial == Delivered(transport, req, attempts)
        invariant Connection(transport, req, 0, maxRetries) ==
          Connection(transport, req, attempts, maxRetries - attempts)
        decreases |remaining|
      {
        var attempt := transport(req, attempts);
        attempts := attempts + 1;
        partial := partial + Partial(attempt);
        if attempt.Responded? {
          return Ok(attempt.response), attempts, slept, partial;
        }
        if !Retryable(attempt.error) || remaining == [] {
          return Err(attempt.error), attempts, slept, partial;
        }
        slept := slept + [remaining[0]];
        remaining := remaining[1..];
      }
    }

    /** `available?`: sends nothing; true exactly when a connection is
        established within the retries, false for any exception; it never
        raises. */
    method Available(transport: Transport, rand: real) returns (b: bool)
      requires 0.0 <= rand < 1.0
      ensures b <==> Connection(transport, ConnectRequest(baseUri.path), 0, maxRetries).0.Ok?
    {
      var r, _, _, _ := WithHttpConnection(transport, ConnectRequest(baseUri.path), rand);
      b := r.Ok?;
    }

    /** `store[key]`: validates the key and makes a handle. */
    method Get(key: Option<string>) returns (r: Result<StoredObject>)
      ensures r.Ok? <==> Allows(key)
      ensures r.Err? ==> r.error == InvalidKey(key)
      ensures r.Ok? ==> r.value.store == this && Some(r.value.key) == key
    {
      var valid := MustAllow(key);
      if valid.Fail? {
        return Err(valid.error);
      }
      var handle := new StoredObject(this, key.value);
      r := Ok(handle);
    }
  }

  /** The requests sent: `available?` connects to the base path, and a handle
      sends its requests to the base path followed by the key. */
  function ConnectRequest(path: string): Request { Request(Connect, path, None, []) }
  function HeadRequest(path: string): Request { Request(Head, path, None, []) }
  function GetRequest(path: string): Request { Request(Get, path, None, []) }
  function PutRequest(path: string, content: Bytes): Request { Request(Put, path, Some(OctetStream), content) }
  function DeleteRequest(path: string): Request { Request(Delete, path, None, []) }

  function ExistsHandler(resp: Response): Result<bool> { Ok(ExistsResult(resp)) }
  /** A handle on one key of an HTTP store. */
  class StoredObject {
    const store: HttpStore
    const key: string

    constructor (store: HttpStore, key: string)
      ensures this.store == store && this.key == key
    {
      this.store := store;
      this.key := key;
    }

    /** The object's path: the base path followed by the key. */
    function Path(): string
    {
      store.baseUri.path + key
    }

    /** `exists?`: a HEAD of the object's path; true exactly for status 200. */
    method Exists(transport: Transport, rand: real) returns (r: Result<bool>)
      requires 0.0 <= rand < 1.0
      ensures r == Handled(Connection(transport, HeadRequest(Path()), 0, store.maxRetries).0, ExistsHandler)
    {
      var c, _, _, _ := store.WithHttpConnection(transport, HeadRequest(Path()), rand);
      r := Handled(c, ExistsHandler);
    }

    /** `read` without a block: a GET of the object's path. */
    method Read(transport: Transport, rand: real) returns (r: Result<Option<Bytes>>)
      requires 0.0 <= rand < 1.0
      ensures r == Handled(Connection(transport, GetRequest(Path()), 0, store.maxRetries).0, ReadResult)
    {
      var c, _, _, _ := store.WithHttpConnection(transport, GetRequest(Path()), rand);
      r := Handled(c, ReadResult);
    }

    /** `read` with a block: the block gets whatever the attempts that broke
        off a body handed on, then the body's segments on a 2xx that has
        one; the call returns nil on a 2xx or 404, and raises otherwise. */
    method ReadEach(transport: Transport, rand: real) returns (yielded: seq<Bytes>, r: Result<Option<Bytes>>)
      requires 0.0 <= rand < 1.0
      ensures var (c, n) := Connection(transport, GetRequest(Path()), 0, store.maxRetries);
        && yielded == Delivered(transport, GetRequest(Path()), n) + BlockSegments(c)
        && (c.Ok? && IsSuccess(c.value.status) ==> r == Ok(None))
        && (c.Ok? && !IsSuccess(c.value.status) ==> r == ReadResult(c.value))
        && (c.Err? ==> r == Err(c.error))
    {
      var c, _, _, partial := store.WithHttpConnection(transport, GetRequest(Path()), rand);
      yielded := partial;
      if c.Err? {
        return yielded, Err(c.error);
      }
      if IsSuccess(c.value.status) {
        if HasBody(c.value.status) {
          yielded := yielded + c.value.segments;
        }
        r := Ok(None);
      } else {
        r := ReadResult(c.value);
      }
    }

    /** `write`: a PUT of the content as `application/octet-stream`; nil on
        2xx, and the status error or connection error otherwise. */
    method Write(transport: Transport, content: Bytes, rand: real) returns (o: Outcome)
      requires 0.0 <= rand < 1.0
      ensures var c := Connection(transport, PutRequest(Path(), content), 0, store.maxRetries).0;
        && (c.Ok? ==> o == WriteResult(c.value))
        && (c.Err? ==> o == Fail(c.error))
    {
      var c, _, _, _ := store.WithHttpConnection(transport, PutRequest(Path(), content), rand);
      if c.Err? {
        return Fail(c.error);
      }
      o := WriteResult(c.value);
    }

    /** `delete`: a DELETE of the object's path. */
    method Delete(transport: Transport, rand: real) returns (r: Result<bool>)
      requires 0.0 <= rand < 1.0
      ensures r == Handled(Connection(transport, DeleteRequest(Path()), 0, store.maxRetries).0, DeleteResult)
    {
      var c, _, _, _ := store.WithHttpConnection(transport, DeleteRequest(Path()), rand);
      r := Handled(c, DeleteResult);
    }
  }
}
