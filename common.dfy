/** Values shared by every store: byte content, Ruby's nil as Option, and the
    exceptions the stores raise, as a Result or an Outcome. */
module Common {

  type Byte = bv8
  /** BLOB content: raw bytes (the source forces every string to BINARY). */
  type Bytes = seq<Byte>

  datatype Option<+T> = None | Some(value: T)

  /** The errno values the stores can observe. */
  datatype Errno = ENOENT | EEXIST | EISDIR | ENOTDIR | ESTALE | ECONNRESET | ECONNREFUSED | EACCES

  /** The exceptions raised (and not rescued) by the stores. */
  datatype Error =
    | InvalidKey(key: Option<string>)    // ArgumentError from KeyConstraint.must_allow!
    | SystemCallError(errno: Errno)      // Errno::* from the file system or a socket
    | IOError                            // a failed write into an open file
    | EOFError                           // the connection ended mid-response
    | SocketError                        // the host name could not be resolved
    | HttpStatusError(status: int)       // Net::HTTPResponse#error!

  /** The value a Ruby method returns, or the exception it raises. */
  datatype Result<+T> = Ok(value: T) | Err(error: Error)

  /** A Ruby method called for its effect: it returns, or it raises. */
  datatype Outcome = Pass | Fail(error: Error)

  function Lookup<K, V>(m: map<K, V>, k: K): (r: Option<V>)
    ensures r.Some? <==> k in m
    ensures r.Some? ==> r.value == m[k]
  {
    if k in m then Some(m[k]) else None
  }

  /** The bytes a consumer has seen after being handed `chunks` in order. */
  function Concat(chunks: seq<Bytes>): Bytes
  {
    if chunks == [] then [] else chunks[0] + Concat(chunks[1..])
  }

  lemma {:induction false} ConcatAppend(a: seq<Bytes>, b: seq<Bytes>)
    ensures Concat(a + b) == Concat(a) + Concat(b)
  {
    if a == [] {
      assert a + b == b;
    } else {
      assert (a + b)[1..] == a[1..] + b;
      ConcatAppend(a[1..], b);
    }
  }

  /** The position of the last `c` in `s`, or -1 when there is none. */
  function LastIndexOf(s: string, c: char): (i: int)
    ensures -1 <= i < |s|
    ensures i >= 0 ==> s[i] == c
    ensures forall j :: i < j < |s| ==> s[j] != c
  {
    if s == [] then -1
    else if s[|s| - 1] == c then |s| - 1
    else LastIndexOf(s[..|s| - 1], c)
  }
}
