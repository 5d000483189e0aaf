/** A store decorator that maps each key through a caller-supplied strategy
    before handing it to the wrapped store. */
module KeyTransforming {
  import opened Common
  import opened KeyConstraint
  import InMemory

  /** `key[start, len]` on a Ruby string, with the `nil` past the end already
      turned into `""` as `Array#join` does. */
  function Slice(s: string, start: nat, len: nat): (r: string)
    ensures |r| <= len
    ensures start + len <= |s| ==> r == s[start..start + len]
    ensures start >= |s| ==> r == ""
  {
    if start >= |s| then ""
    else if start + len <= |s| then s[start..start + len]
    else s[start..]
  }

  /** The sharding strategy: the first three pairs of characters, then the key. */
  function Shard(key: string): string
  {
    Slice(key, 0, 2) + "/" + Slice(key, 2, 2) + "/" + Slice(key, 4, 2) + "/" + key
  }

  /** The shard-ignoring strategy, `key.split("/").last`: `split` drops trailing
      empty fields, so this is the last non-empty segment, or nil when there is none. */
  function LastSegment(key: string): (r: Option<string>)
    decreases |key|
  {
    var i := LastIndexOf(key, '/');
    if i < 0 then (if key == "" then None else Some(key))
    else if i == |key| - 1 then LastSegment(key[..i])
    else Some(key[i + 1..])
  }

  /** The last segment is a non-empty run of the key free of `/`, starting
      the key or following a `/`, and only slashes come after it. */
  lemma {:induction false} LastSegmentIsSegment(key: string) returns (j: nat)
    ensures var r := LastSegment(key);
      r.Some? ==>
        && r.value != "" && '/' !in r.value
        && j + |r.value| <= |key| && key[j..j + |r.value|] == r.value
        && (j == 0 || key[j - 1] == '/')
        && (forall m :: j + |r.value| <= m < |key| ==> key[m] == '/')
    decreases |key|
  {
    var i := LastIndexOf(key, '/');
    if i < 0 {
      j := 0;
      assert key[0..|key|] == key;
    } else if i == |key| - 1 {
      j := LastSegmentIsSegment(key[..i]);
      var r := LastSegment(key[..i]);
      if r.Some? {
        assert key[..i][j..j + |r.value|] == key[j..j + |r.value|];
        assert j == 0 || key[..i][j - 1] == key[j - 1];
        assert forall m :: j + |r.value| <= m < i ==> key[..i][m] == key[m];
      }
    } else {
      j := i + 1;
      var t := key[i + 1..];
      assert key[j..j + |t|] == t;
      assert forall m :: 0 <= m < |t| ==> t[m] == key[i + 1 + m];
    }
  }

  /** Only a key made of slashes (or nothing) has no last segment. */
  lemma {:induction false} LastSegmentNone(key: string)
    ensures LastSegment(key).None? <==> forall j :: 0 <= j < |key| ==> key[j] == '/'
  {
    var i := LastIndexOf(key, '/');
    if i < 0 {
      if key != "" {
        assert key[|key| - 1] != '/';
      }
    } else if i == |key| - 1 {
      LastSegmentNone(key[..i]);
      assert forall j :: 0 <= j < i ==> key[..i][j] == key[j];
    } else {
      assert key[|key| - 1] != '/';
    }
  }

  /** A key that is a single segment is its own last segment. */
  lemma LastSegmentOfSegment(key: string)
    requires key != "" && '/' !in key
    ensures LastSegment(key) == Some(key)
  {
    assert forall m :: 0 <= m < |key| ==> key[m] != '/';
  }

  /** A valid key whose first six characters hold neither `/` nor `%` keeps
      its validity once sharded (a `%` there could be cut in two by a `/`). */
  lemma ShardKeepsValidKeys(key: string)
    requires Allows(Some(key)) && |key| >= 5
    requires forall i :: 0 <= i < 6 && i < |key| ==> key[i] != '/' && key[i] != '%'
    ensures Allows(Some(Shard(key)))
  {
    AllowsIff(key);
    var hi := if |key| < 6 then |key| else 6;
    var p1, p2, p3 := key[0..2], key[2..4], key[4..hi];
    assert Slice(key, 4, 2) == p3;
    SegmentValid(key, 0, 2);
    SegmentValid(key, 2, 4);
    SegmentValid(key, 4, hi);
    JoinValid(p1, p2);
    JoinValid(p1 + "/" + p2, p3);
    JoinValid(p1 + "/" + p2 + "/" + p3, key);
    AllowsIff(Shard(key));
  }

  /** A non-empty run of a valid key holding neither `/` nor `%` is itself valid. */
  lemma SegmentValid(key: string, lo: nat, hi: nat)
    requires ValidKey(key) && lo < hi <= |key|
    requires forall i :: lo <= i < hi ==> key[i] != '/' && key[i] != '%'
    ensures ValidKey(key[lo..hi])
  {
    var t := key[lo..hi];
    assert forall j :: 0 <= j < |t| ==> t[j] == key[lo + j];
  }

  /** A key of four characters or fewer shards to a key with an empty segment,
      which every store rejects. */
  lemma ShardRejectsShortKeys(key: string)
    requires |key| <= 4
    ensures !Allows(Some(Shard(key)))
  {
    var s := Shard(key);
    var a, b := |Slice(key, 0, 2)|, |Slice(key, 2, 2)|;
    assert s[a + b + 1] == '/' && s[a + b + 2] == '/';
    AllowsIff(s);
  }

  /** The key of the sharding example is accepted. */
  lemma ExampleKeyAllowed()
    ensures Allows(Some("aabbccdd.png"))
  {
    var s := "aabbccdd.png";
    assert ValidKey(s) by {
      assert forall i :: 0 <= i < |s| ==>
        s[i] != '/' && s[i] != '%' && s[i] != ':' && IsPathChar(s[i]);
    }
    AllowsIff(s);
  }

  /** The sharding example: the key and its sharded form are both accepted. */
  lemma ShardExample()
    ensures Shard("aabbccdd.png") == "aa/bb/cc/aabbccdd.png"
    ensures Allows(Some("aa/bb/cc/aabbccdd.png"))
  {
    var s := "aabbccdd.png";
    assert s[0] == s[1] == 'a' && s[2] == s[3] == 'b' && s[4] == s[5] == 'c';
    assert s[0..2] == [s[0], s[1]] && s[2..4] == [s[2], s[3]] && s[4..6] == [s[4], s[5]];
    assert Slice(s, 0, 2) == "aa" && Slice(s, 2, 2) == "bb" && Slice(s, 4, 2) == "cc";
    assert Shard(s) == "aa/bb/cc/aabbccdd.png";
    ExampleKeyAllowed();
    assert forall i :: 0 <= i < 6 && i < |s| ==> s[i] != '/' && s[i] != '%';
    ShardKeepsValidKeys(s);
  }

  /** The shard-ignoring example recovers the file name. */
  lemma LastSegmentExample()
    ensures LastSegment("/aa/bb/cc/aabbccdd.png") == Some("aabbccdd.png")
  {
    var s := "/aa/bb/cc/aabbccdd.png";
    assert s[9] == '/';
    assert LastIndexOf(s, '/') == 9;
    assert s[10..] == "aabbccdd.png";
  }

  /** The key of the shard-ignoring example is rejected for its leading slash. */
  lemma LeadingSlashKeyRejected()
    ensures !Allows(Some("/aa/bb/cc/aabbccdd.png"))
  {
    var s := "/aa/bb/cc/aabbccdd.png";
    AllowsIff(s);
    assert s[0] == '/';
  }

  class KeyTransformingStore {
    const store: InMemory.InMemoryStore
    /** The strategy block; a nil result is passed on as a nil key. */
    const transform: string -> Option<string>

    constructor (store: InMemory.InMemoryStore, transform: string -> Option<string>)
      ensures this.store == store && this.transform == transform
    {
      this.store := store;
      this.transform := transform;
    }

    /** Every other message is delegated to the wrapped store. */
    predicate Available()
      ensures Available() == store.Available()
    {
      store.Available()
    }

    /** `store[key]`: the wrapped store's handle for the transformed key, so it
        is the transformed key that is validated, and it is the transformed
        key that the wrapped store reads and writes. */
    method Get(key: string) returns (r: Result<InMemory.StoredObject>)
      ensures r.Ok? <==> Allows(transform(key))
      ensures r.Err? ==> r.error == InvalidKey(transform(key))
      ensures r.Ok? ==> r.value.store == store && transform(key) == Some(r.value.key)
    {
      r := store.Get(transform(key));
    }
  }

  /** The sharding example: writing through the decorator stores the content
      under the sharded key of the wrapped hash, and reads see it. */
  method ShardedWrite(memory: InMemory.InMemoryStore, content: Bytes) returns (read: Option<Bytes>)
    modifies memory
    ensures memory.hash == old(memory.hash)["aa/bb/cc/aabbccdd.png" := content]
    ensures read == Some(content)
  {
    var store := new KeyTransformingStore(memory, k => Some(Shard(k)));
    ShardExample();
    var handle := store.Get("aabbccdd.png");
    var o := handle.value;
    o.Write(content);
    var again := store.Get("aabbccdd.png");
    read := again.value.Read();
  }

  /** The identity strategy leaves the wrapped store's behaviour unchanged. */
  method IdentityWrite(memory: InMemory.InMemoryStore, key: string, content: Bytes)
      returns (r: Result<Option<Bytes>>)
    modifies memory
    ensures r.Ok? <==> Allows(Some(key))
    ensures r.Ok? ==> r.value == Some(content) && memory.hash == old(memory.hash)[key := content]
    ensures r.Err? ==> r.error == InvalidKey(Some(key)) && memory.hash == old(memory.hash)
  {
    var store := new KeyTransformingStore(memory, k => Some(k));
    var handle := store.Get(key);
    if handle.Err? {
      return Err(handle.error);
    }
    handle.value.Write(content);
    var content' := handle.value.Read();
    r := Ok(content');
  }

  /** The shard-ignoring example: a key the store would reject is written
      under its last segment, which the store accepts. */
  method LastSegmentWrite(memory: InMemory.InMemoryStore, content: Bytes) returns (read: Option<Bytes>)
    modifies memory
    ensures memory.hash == old(memory.hash)["aabbccdd.png" := content]
    ensures read == Some(content)
  {
    var store := new KeyTransformingStore(memory, LastSegment);
    LastSegmentExample();
    ExampleKeyAllowed();
    var handle := store.Get("/aa/bb/cc/aabbccdd.png");
    var o := handle.value;
    o.Write(content);
    var again := store.Get("/aa/bb/cc/aabbccdd.png");
    read := again.value.Read();
  }
}
