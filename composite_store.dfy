/** A store composed of several member stores: writes go to every member,
    reads are served by the first member that holds the key, and a delete
    succeeds only if every member removed something. */
module Composite {
  import opened Common
  import KeyConstraint
  import InMemory

  // ---------------------------------------------------------------------------
  // Folds over a view: for each member in order, its content at one key.

  /** `objects.any?(&:exists?)` */
  function AnyPresent(v: seq<Option<Bytes>>): bool
  {
    if v == [] then false else v[0].Some? || AnyPresent(v[1..])
  }

  /** The content of the first member that holds the key. */
  function FirstPresent(v: seq<Option<Bytes>>): Option<Bytes>
  {
    if v == [] then None else if v[0].Some? then v[0] else FirstPresent(v[1..])
  }

  /** `objects.all?(&:delete)`: every member's delete reports a removal. */
  function AllPresent(v: seq<Option<Bytes>>): bool
  {
    if v == [] then true else v[0].Some? && AllPresent(v[1..])
  }

  /** How many members `all?` asks to delete: all of them, or up to and
      including the first that reports nothing removed. */
  function DeleteCount(v: seq<Option<Bytes>>): nat
  {
    if v == [] then 0 else if v[0].None? then 1 else 1 + DeleteCount(v[1..])
  }

  /** The view once the first `DeleteCount(v)` members have deleted the key. */
  function AfterDelete(v: seq<Option<Bytes>>): seq<Option<Bytes>>
  {
    seq(|v|, i requires 0 <= i < |v| => if i < DeleteCount(v) then None else v[i])
  }

  lemma {:induction false} AnyPresentIff(v: seq<Option<Bytes>>)
    ensures AnyPresent(v) <==> exists i :: 0 <= i < |v| && v[i].Some?
  {
    if v != [] {
      AnyPresentIff(v[1..]);
      if AnyPresent(v[1..]) {
        var i :| 0 <= i < |v| - 1 && v[1..][i].Some?;
        assert v[i + 1].Some?;
      }
      if v[0].None? && exists i :: 0 <= i < |v| && v[i].Some? {
        var i :| 0 <= i < |v| && v[i].Some?;
        assert v[1..][i - 1].Some?;
      }
    }
  }

  /** The first-match rule: the read finds content exactly when some member
      holds the key, and then it is that of the first such member. */
  lemma {:induction false} FirstPresentIsFirstMatch(v: seq<Option<Bytes>>)
    ensures FirstPresent(v).Some? <==> AnyPresent(v)
    ensures FirstPresent(v).Some? ==>
      exists i :: 0 <= i < |v| && v[i] == FirstPresent(v) && forall j :: 0 <= j < i ==> v[j].None?
  {
    if v != [] && v[0].None? {
      FirstPresentIsFirstMatch(v[1..]);
      if FirstPresent(v).Some? {
        var i :| 0 <= i < |v| - 1 && v[1..][i] == FirstPresent(v[1..]) &&
          forall j :: 0 <= j < i ==> v[1..][j].None?;
        assert v[i + 1] == FirstPresent(v);
        forall j | 0 <= j < i + 1 ensures v[j].None? {
          if j > 0 { assert v[1..][j - 1].None?; }
        }
      }
    }
  }

  lemma {:induction false} AllPresentIff(v: seq<Option<Bytes>>)
    ensures AllPresent(v) <==> forall i :: 0 <= i < |v| ==> v[i].Some?
  {
    if v != [] {
      AllPresentIff(v[1..]);
      if AllPresent(v) {
        forall i | 0 <= i < |v| ensures v[i].Some? {
          if i > 0 { assert v[1..][i - 1].Some?; }
        }
      }
      if forall i :: 0 <= i < |v| ==> v[i].Some? {
        forall i | 0 <= i < |v| - 1 ensures v[1..][i].Some? {
          assert v[i + 1].Some?;
        }
      }
    }
  }

  /** The short-circuit of `all?`: if every member holds the key, every member
      deletes it; otherwise deletion stops at the first member without it. */
  lemma {:induction false} DeleteCountStopsAtFirstAbsent(v: seq<Option<Bytes>>)
    ensures DeleteCount(v) <= |v|
    ensures AllPresent(v) ==> DeleteCount(v) == |v|
    ensures !AllPresent(v) ==>
      0 < DeleteCount(v) && v[DeleteCount(v) - 1].None? &&
      forall j :: 0 <= j < DeleteCount(v) - 1 ==> v[j].Some?
  {
    if v != [] && v[0].Some? {
      DeleteCountStopsAtFirstAbsent(v[1..]);
      if !AllPresent(v) {
        var k := DeleteCount(v);
        assert v[k - 1] == v[1..][k - 2];
        forall j | 0 <= j < k - 1 ensures v[j].Some? {
          if j > 0 { assert v[j] == v[1..][j - 1]; }
        }
      }
    }
  }

  /** A successful delete leaves no member holding the key. */
  lemma DeleteTrueRemovesEverywhere(v: seq<Option<Bytes>>)
    requires AllPresent(v)
    ensures !AnyPresent(AfterDelete(v))
  {
    DeleteCountStopsAtFirstAbsent(v);
    AnyPresentIff(AfterDelete(v));
  }

  /** The asymmetry between read and delete: when only the second member holds
      the key, delete reports `false`, never reaches that member, and the
      object can still be read afterwards. */
  lemma DeleteMayLeaveObject(c: Bytes)
    ensures !AllPresent([None, Some(c)])
    ensures AfterDelete([None, Some(c)]) == [None, Some(c)]
    ensures FirstPresent(AfterDelete([None, Some(c)])) == Some(c)
  {
    var v: seq<Option<Bytes>> := [None, Some(c)];
    assert DeleteCount(v) == 1;
    assert v[1..] == [Some(c)];
  }

  /** A write that reached every member is read back, if there is a member. */
  lemma {:induction false} ReadAfterWrite(v: seq<Option<Bytes>>, c: Bytes)
    requires |v| > 0 && forall i :: 0 <= i < |v| ==> v[i] == Some(c)
    ensures AnyPresent(v) && FirstPresent(v) == Some(c)
  {
  }

  /** A member write that raises: the member at `index` raises `error`. */
  datatype MemberFault = MemberFault(index: nat, error: Error)

  /** How many members a write reaches before it stops: all of them, or
      those before the one that raises. */
  function Reached(fault: Option<MemberFault>, n: nat): (k: nat)
    ensures k <= n
    ensures k < n <==> fault.Some? && fault.value.index < n
    ensures k < n ==> k == fault.value.index
  {
    if fault.Some? && fault.value.index < n then fault.value.index else n
  }

  // ---------------------------------------------------------------------------

  class CompositeStore {
    const stores: seq<InMemory.InMemoryStore>

    constructor (stores: seq<InMemory.InMemoryStore>)
      ensures this.stores == stores
    {
      this.stores := stores;
    }

    /** `stores.all?(&:available?)` */
    predicate Available()
      ensures Available() <==> forall i :: 0 <= i < |stores| ==> stores[i].Available()
    {
      forall i :: 0 <= i < |stores| ==> stores[i].Available()
    }

    /** `store[key]`: validates the key once, then asks every member, in order,
        for its handle on the key. */
    method Get(key: Option<string>) returns (r: Result<StoredObject>)
      ensures r.Ok? <==> KeyConstraint.Allows(key)
      ensures r.Err? ==> r.error == InvalidKey(key)
      ensures r.Ok? ==> r.value.Valid() && Some(r.value.key) == key
      ensures r.Ok? ==> |r.value.objects| == |stores|
      ensures r.Ok? ==> forall i :: 0 <= i < |stores| ==> r.value.objects[i].store == stores[i]
    {
      var valid := KeyConstraint.MustAllow(key);
      if valid.Fail? {
        return Err(valid.error);
      }
      var objects: seq<InMemory.StoredObject> := [];
      var i := 0;
      while i < |stores|
        invariant 0 <= i <= |stores| && |objects| == i
        invariant forall j :: 0 <= j < i ==> objects[j].store == stores[j] && objects[j].key == key.value
      {
        var member := stores[i].Get(key);
        objects := objects + [member.value];
        i := i + 1;
      }
      var handle := new StoredObject(objects, key.value);
      r := Ok(handle);
    }
  }

  /** A handle bound to one member handle per store, all on the same key. */
  class StoredObject {
    const objects: seq<InMemory.StoredObject>
    ghost const key: string

    ghost predicate Valid()
    {
      forall i :: 0 <= i < |objects| ==> objects[i].key == key
    }

    /** The member stores, whose hashes the handle reads and writes. */
    ghost function Stores(): set<InMemory.InMemoryStore>
    {
      set i | 0 <= i < |objects| :: objects[i].store
    }

    /** Each member's content at the key, in member order. */
    ghost function View(): (v: seq<Option<Bytes>>)
      reads Stores()
      ensures |v| == |objects|
      ensures forall i :: 0 <= i < |objects| ==> v[i] == Lookup(objects[i].store.hash, objects[i].key)
    {
      seq(|objects|, i reads Stores() requires 0 <= i < |objects| => Lookup(objects[i].store.hash, objects[i].key))
    }

    constructor (objects: seq<InMemory.StoredObject>, key: string)
      requires forall i :: 0 <= i < |objects| ==> objects[i].key == key
      ensures this.objects == objects && this.key == key && Valid()
    {
      this.objects := objects;
      this.key := key;
    }

    /** `exists?`: some member holds the key. */
    method Exists() returns (b: bool)
      ensures b == AnyPresent(View())
    {
      ghost var v := View();
      var i := 0;
      while i < |objects|
        invariant 0 <= i <= |objects|
        invariant AnyPresent(v) == AnyPresent(v[i..])
      {
        assert v[i..][1..] == v[i + 1..];
        b := objects[i].Exists();
        if b {
          assert v == View();
          return;
        }
        i := i + 1;
      }
      assert v[i..] == [] && v == View();
      b := false;
    }

    /** `read` without a block: the content of the first member that has it. */
    method Read() returns (content: Option<Bytes>)
      ensures content == FirstPresent(View())
    {
      ghost var v := View();
      var i := 0;
      while i < |objects|
        invariant 0 <= i <= |objects|
        invariant FirstPresent(v) == FirstPresent(v[i..])
      {
        assert v[i..][1..] == v[i + 1..];
        var present := objects[i].Exists();
        if present {
          content := objects[i].Read();
          assert v == View();
          return;
        }
        i := i + 1;
      }
      assert v[i..] == [] && v == View();
      content := None;
    }

    /** `read` with a block: the first member that has the key calls the block
        once with its content; when no member has it the block is never called.
        Either way the call returns nil. */
    method ReadEach() returns (yielded: seq<Option<Bytes>>, r: Option<Bytes>)
      ensures yielded == if AnyPresent(View()) then [FirstPresent(View())] else []
      ensures r == None
    {
      ghost var v := View();
      FirstPresentIsFirstMatch(v);
      var i := 0;
      while i < |objects|
        invariant 0 <= i <= |objects|
        invariant FirstPresent(v) == FirstPresent(v[i..])
        invariant AnyPresent(v) == AnyPresent(v[i..])
      {
        assert v[i..][1..] == v[i + 1..];
        var present := objects[i].Exists();
        if present {
          yielded, r := objects[i].ReadEach();
          assert v == View();
          return;
        }
        i := i + 1;
      }
      assert v[i..] == [] && v == View();
      yielded, r := [], None;
    }

    /** The stores of the first `n` members. */
    ghost function StoresUpTo(n: nat): set<InMemory.InMemoryStore>
    {
      set j | 0 <= j < n && j < |objects| :: objects[j].store
    }

    /** `write`: the same content goes to every member, in order; returns nil.
        A member write that raises (`fault`: the member at `index` raises
        `error`; the in-memory store never does, a store that can fail
        would) ends the loop: the exception propagates and the members after
        it are not written. Members may share a store: writing one key twice
        is writing it once. */
    method Write(content: Bytes, fault: Option<MemberFault>) returns (o: Outcome)
      requires Valid()
      modifies Stores()
      ensures o == (if Reached(fault, |objects|) < |objects| then Fail(fault.value.error) else Pass)
      ensures forall i :: 0 <= i < |objects| ==>
        objects[i].store.hash ==
          if objects[i].store in StoresUpTo(Reached(fault, |objects|))
          then old(objects[i].store.hash)[key := content]
          else old(objects[i].store.hash)
    {
      var i := 0;
      while i < |objects|
        invariant 0 <= i <= Reached(fault, |objects|)
        invariant forall j :: 0 <= j < |objects| ==>
          objects[j].store.hash ==
            if objects[j].store in StoresUpTo(i)
            then old(objects[j].store.hash)[key := content]
            else old(objects[j].store.hash)
      {
        if fault.Some? && fault.value.index == i {
          return Fail(fault.value.error);
        }
        assert StoresUpTo(i + 1) == StoresUpTo(i) + {objects[i].store};
        objects[i].Write(content);
        i := i + 1;
      }
      o := Pass;
    }

    /** `delete`: members delete in order until one reports nothing removed;
        the members after it are left untouched. */
    method Delete() returns (deleted: bool)
      requires Valid()
      requires forall i, j :: 0 <= i < j < |objects| ==> objects[i].store != objects[j].store
      modifies Stores()
      ensures deleted == AllPresent(old(View()))
      ensures View() == AfterDelete(old(View()))
      ensures forall i :: 0 <= i < |objects| ==>
        objects[i].store.hash == (if i < DeleteCount(old(View())) then old(objects[i].store.hash) - {key} else old(objects[i].store.hash))
    {
      ghost var v := View();
      DeleteCountStopsAtFirstAbsent(v);
      deleted := true;
      var i := 0;
      while i < |objects| && deleted
        invariant 0 <= i <= |objects|
        invariant deleted ==> AllPresent(v) == AllPresent(v[i..]) && DeleteCount(v) == i + DeleteCount(v[i..])
        invariant !deleted ==> !AllPresent(v) && i == DeleteCount(v)
        invariant forall j :: 0 <= j < |objects| ==>
          objects[j].store.hash == (if j < i then old(objects[j].store.hash) - {key} else old(objects[j].store.hash))
      {
        assert v[i..][1..] == v[i + 1..];
        deleted := objects[i].Delete();
        i := i + 1;
      }
      assert deleted ==> i == |objects| && v[i..] == [];
    }
  }
}
