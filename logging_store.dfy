/** A store decorator that records an audit line after each write and after
    each delete that removed something. */
module Logging {
  import opened Common
  import KeyConstraint
  import InMemory

  /** The logger sink: the lines passed to `logger.info`, in order. */
  class Logger {
    var lines: seq<string>

    constructor ()
      ensures lines == []
    {
      lines := [];
    }

    method Info(message: string)
      modifies this
      ensures lines == old(lines) + [message]
    {
      lines := lines + [message];
    }
  }

  /** `key.inspect` for a key the store accepts: such a key holds no quote,
      backslash, `#` or control character, so Ruby only adds the quotes. */
  function Inspect(key: string): string
  {
    "\"" + key + "\""
  }

  function WroteMessage(key: string, storeName: string): string
  {
    "wrote to " + Inspect(key) + " in " + storeName
  }

  function DeletedMessage(key: string, storeName: string): string
  {
    "deleted " + Inspect(key) + " from " + storeName
  }

  /** The audit line names the key: for one store, distinct keys give
      distinct lines. */
  lemma {:induction false} WroteMessageNamesKey(k1: string, k2: string, storeName: string)
    requires WroteMessage(k1, storeName) == WroteMessage(k2, storeName)
    ensures k1 == k2
  {
    var m1, m2 := WroteMessage(k1, storeName), WroteMessage(k2, storeName);
    var p := |"wrote to \""|;
    assert |k1| == |k2|;
    forall i | 0 <= i < |k1| ensures k1[i] == k2[i] {
      assert m1[p + i] == k1[i] && m2[p + i] == k2[i];
    }
  }

  lemma {:induction false} DeletedMessageNamesKey(k1: string, k2: string, storeName: string)
    requires DeletedMessage(k1, storeName) == DeletedMessage(k2, storeName)
    ensures k1 == k2
  {
    var m1, m2 := DeletedMessage(k1, storeName), DeletedMessage(k2, storeName);
    var p := |"deleted \""|;
    assert |k1| == |k2|;
    forall i | 0 <= i < |k1| ensures k1[i] == k2[i] {
      assert m1[p + i] == k1[i] && m2[p + i] == k2[i];
    }
  }

  /** A write line is never mistaken for a delete line. */
  lemma WriteAndDeleteLinesDiffer(k1: string, k2: string, storeName: string)
    ensures WroteMessage(k1, storeName) != DeletedMessage(k2, storeName)
  {
    assert WroteMessage(k1, storeName)[0] == 'w';
    assert DeletedMessage(k2, storeName)[0] == 'd';
  }

  /** The lines the logging examples look for. */
  lemma MessageExamples()
    ensures WroteMessage("foo", "THE STORE") == "wrote to \"foo\" in THE STORE"
    ensures DeletedMessage("foo", "THE STORE") == "deleted \"foo\" from THE STORE"
  {
  }

  class LoggingStore {
    const store: InMemory.InMemoryStore
    const storeName: string
    const logger: Logger

    constructor (store: InMemory.InMemoryStore, storeName: string, logger: Logger)
      ensures this.store == store && this.storeName == storeName && this.logger == logger
    {
      this.store := store;
      this.storeName := storeName;
      this.logger := logger;
    }

    /** `available?` delegates to the wrapped store. */
    predicate Available()
      ensures Available() == store.Available()
    {
      store.Available()
    }

    /** `store[key]`: no validation of its own; the wrapped store validates and
        its handle is wrapped with the two audit callbacks. */
    method Get(key: Option<string>) returns (r: Result<StoredObject>)
      ensures r.Ok? <==> KeyConstraint.Allows(key)
      ensures r.Err? ==> r.error == InvalidKey(key)
      ensures r.Ok? ==> Some(r.value.inner.key) == key && r.value.inner.store == store
      ensures r.Ok? ==> r.value.storeName == storeName && r.value.logger == logger
    {
      var wrapped := store.Get(key);
      if wrapped.Err? {
        return Err(wrapped.error);
      }
      var handle := new StoredObject(wrapped.value, storeName, logger);
      r := Ok(handle);
    }
  }

  /** A handle that delegates to the wrapped handle and logs after it. */
  class StoredObject {
    const inner: InMemory.StoredObject
    const storeName: string
    const logger: Logger

    constructor (inner: InMemory.StoredObject, storeName: string, logger: Logger)
      ensures this.inner == inner && this.storeName == storeName && this.logger == logger
    {
      this.inner := inner;
      this.storeName := storeName;
      this.logger := logger;
    }

    method Exists() returns (b: bool)
      ensures b <==> inner.key in inner.store.hash
    {
      b := inner.Exists();
    }

    method Read() returns (content: Option<Bytes>)
      ensures content == Lookup(inner.store.hash, inner.key)
    {
      content := inner.Read();
    }

    method ReadEach() returns (yielded: seq<Option<Bytes>>, r: Option<Bytes>)
      ensures yielded == [Lookup(inner.store.hash, inner.key)] && r == None
    {
      yielded, r := inner.ReadEach();
    }

    /** `write`: the wrapped write, then exactly one audit line; returns nil.
        The line is written only once the wrapped write has returned: when it
        raises (`fault`, the exception a wrapped store that can fail raises;
        the in-memory store never does), the exception propagates, nothing
        is logged and the hash is as it was. */
    method Write(content: Bytes, fault: Option<Error>) returns (o: Outcome)
      modifies inner.store, logger
      ensures fault.Some? ==>
        && o == Fail(fault.value)
        && inner.store.hash == old(inner.store.hash)
        && logger.lines == old(logger.lines)
      ensures fault.None? ==>
        && o == Pass
        && inner.store.hash == old(inner.store.hash)[inner.key := content]
        && logger.lines == old(logger.lines) + [WroteMessage(inner.key, storeName)]
    {
      if fault.Some? {
        return Fail(fault.value);
      }
      inner.Write(content);
      logger.Info(WroteMessage(inner.key, storeName));
      o := Pass;
    }

    /** `delete`: the wrapped result, unchanged; an audit line only if it is true. */
    method Delete() returns (deleted: bool)
      modifies inner.store, logger
      ensures deleted <==> inner.key in old(inner.store.hash)
      ensures inner.store.hash == old(inner.store.hash) - {inner.key}
      ensures logger.lines ==
        old(logger.lines) + (if deleted then [DeletedMessage(inner.key, storeName)] else [])
    {
      deleted := inner.Delete();
      if deleted {
        logger.Info(DeletedMessage(inner.key, storeName));
      }
    }
  }

  /** The audit trail of a write followed by two deletes on a key that was absent. */
  method AuditTrail(store: LoggingStore, key: string, content: Bytes) returns (first: bool, second: bool)
    requires KeyConstraint.Allows(Some(key)) && key !in store.store.hash
    modifies store.store, store.logger
    ensures first && !second
    ensures store.logger.lines == old(store.logger.lines) +
      [WroteMessage(key, store.storeName), DeletedMessage(key, store.storeName)]
  {
    var handle := store.Get(Some(key));
    var o := handle.value;
    var _ := o.Write(content, None);
    first := o.Delete();
    second := o.Delete();
  }
}
