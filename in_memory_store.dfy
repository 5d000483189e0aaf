/** A BLOB store backed by a hash held in memory: the reference semantics of
    the store contract. */
module InMemory {
  import opened Common
  import KeyConstraint

  class InMemoryStore {
    /** The shared hash every handle of this store reads and updates. */
    var hash: map<string, Bytes>

    constructor (hash: map<string, Bytes>)
      ensures this.hash == hash
    {
      this.hash := hash;
    }

    /** `available?`: an in-memory store is always available. */
    predicate Available()
    {
      true
    }

    /** `store[key]`: validates the key, then makes a handle; the hash is not touched. */
    method Get(key: Option<string>) returns (r: Result<StoredObject>)
      ensures r.Ok? <==> KeyConstraint.Allows(key)
      ensures r.Err? ==> r.error == InvalidKey(key)
      ensures r.Ok? ==> r.value.store == this && key == Some(r.value.key) && fresh(r.value)
    {
      var valid := KeyConstraint.MustAllow(key);
      if valid.Fail? {
        return Err(valid.error);
      }
      var handle := new StoredObject(this, key.value);
      r := Ok(handle);
    }
  }

  /** A handle on one key of an in-memory store; it caches nothing. */
  class StoredObject {
    const store: InMemoryStore
    const key: string

    constructor (store: InMemoryStore, key: string)
      ensures this.store == store && this.key == key
    {
      this.store := store;
      this.key := key;
    }

    method Exists() returns (b: bool)
      ensures b <==> key in store.hash
    {
      b := key in store.hash;
    }

    /** `read` without a block: the content, or nil when nothing is stored. */
    method Read() returns (content: Option<Bytes>)
      ensures content.Some? <==> key in store.hash
      ensures content.Some? ==> content.value == store.hash[key]
    {
      content := Lookup(store.hash, key);
    }

    /** `read` with a block: the block is called exactly once, with the content
        or with nil, and the call returns nil. */
    method ReadEach() returns (yielded: seq<Option<Bytes>>, r: Option<Bytes>)
      ensures |yielded| == 1 && yielded[0] == Lookup(store.hash, key)
      ensures r == None
    {
      yielded := [Lookup(store.hash, key)];
      r := None;
    }

    /** `write`: replaces the entry for this key and no other; returns nil. */
    method Write(content: Bytes)
      modifies store
      ensures store.hash == old(store.hash)[key := content]
    {
      store.hash := store.hash[key := content];
    }

    /** `delete`: reports whether an entry was removed. */
    method Delete() returns (deleted: bool)
      modifies store
      ensures deleted <==> key in old(store.hash)
      ensures store.hash == old(store.hash) - {key}
    {
      deleted := key in store.hash;
      store.hash := store.hash - {key};
    }
  }

  /** The contract every store shares, run against the reference store:
      nothing before a write, the content after it, `true` then `false` from
      two deletes, and no other key affected. */
  method StoreBehaviour(store: InMemoryStore, key: string, other: string, content: Bytes)
      returns (before: Option<Bytes>, after: Option<Bytes>, first: bool, second: bool, gone: bool)
    requires KeyConstraint.Allows(Some(key)) && key !in store.hash && other != key
    modifies store
    ensures before == None && after == Some(content)
    ensures first && !second && !gone
    ensures store.hash == old(store.hash)
    ensures Lookup(store.hash, other) == Lookup(old(store.hash), other)
  {
    var handle := store.Get(Some(key));
    var o := handle.value;
    before := o.Read();
    o.Write(content);
    assert Lookup(store.hash, other) == Lookup(old(store.hash), other);
    after := o.Read();
    first := o.Delete();
    gone := o.Exists();
    second := o.Delete();
  }
}
