/** Storage backends and their registry (fs/storage.ts).

    A backend has an id, a type name, a `mode` of permission bits (0b100
    read, 0b010 write, 0b001 delete) and a store that maps the reference
    `save` returns to the bytes saved. Backends are values held by the
    registry, which replaces an entry when that backend's store changes. `NullStorage` keeps nothing:
    its reference is the decimal length of the buffer and reading it gives
    that many zero bytes. Every other backend (local disk, GitHub, Gitee,
    OSS, Quark) is modelled as an object store whose `save` may fail and may
    or may not write over the reference it was given as `origin`. */
module Storage {
  import opened Wrappers
  import opened Bytes

  /** `NIL_UUID`, the id of every NullStorage. */
  const NilUuid: string := "00000000-0000-0000-0000-000000000000"

  // ---------------------------------------------------------------------------
  // Permission bits. `mode & bit` on a JavaScript number; Dafny's division
  // rounds toward minus infinity for a positive divisor, which is the
  // two's-complement reading of a negative mode.

  predicate CanRead(mode: int) { (mode / 4) % 2 == 1 }
  predicate CanWrite(mode: int) { (mode / 2) % 2 == 1 }
  predicate CanDelete(mode: int) { mode % 2 == 1 }

  /** The argument of `StorageManager.Find`. */
  datatype Status = ReadStatus | WriteStatus | DeleteStatus | AnyStatus

  predicate Permits(mode: int, status: Status) {
    match status
    case ReadStatus => CanRead(mode)
    case WriteStatus => CanWrite(mode)
    case DeleteStatus => CanDelete(mode)
    case AnyStatus => true
  }

  lemma FullModePermitsAll(status: Status)
    ensures Permits(7, status)
    ensures !CanRead(0) && !CanWrite(0) && !CanDelete(0)
  {
  }

  datatype StorageError = ReadFailed | SaveFailed | DeleteFailed

  // ---------------------------------------------------------------------------
  // NullStorage

  /** `NullStorage.save`: the decimal length of the buffer. */
  function NullSave(buffer: seq<byte>): (ref: string)
    ensures ref != "" && IsDecimal(ref)
  {
    NatToStringRoundTrip(|buffer|);
    NatToString(|buffer|)
  }

  /** `NullStorage.read`: `Buffer.alloc(Number(ref))`. Only plain decimal
      references are modelled as sizes; anything else is a failed read. */
  function NullRead(ref: string): (r: Result<seq<byte>, StorageError>)
    ensures r.Ok? ==> forall i :: 0 <= i < |r.value| ==> r.value[i] == 0
  {
    if IsDecimal(ref) then Ok(Zeros(ParseDecimal(ref))) else Err(ReadFailed)
  }

  /** Reading back what NullStorage saved gives as many zero bytes as were saved. */
  lemma NullSaveRead(buffer: seq<byte>)
    ensures NullRead(NullSave(buffer)).Ok?
    ensures NullRead(NullSave(buffer)).value == Zeros(|buffer|)
  {
    NatToStringRoundTrip(|buffer|);
  }

  /** Equal lengths, equal references: NullStorage cannot tell buffers apart. */
  lemma NullSaveDependsOnLengthOnly(a: seq<byte>, b: seq<byte>)
    ensures NullSave(a) == NullSave(b) <==> |a| == |b|
  {
    if NullSave(a) == NullSave(b) {
      NatToStringRoundTrip(|a|);
      NatToStringRoundTrip(|b|);
    }
  }

  /** A string longer than every string of a finite set, so not in it. */
  ghost function LongerThanAll(keys: set<string>): (s: string)
    ensures s != "" && forall k :: k in keys ==> |k| < |s|
    decreases keys
  {
    if keys == {} then "o"
    else
      var k :| k in keys;
      var t := LongerThanAll(keys - {k});
      t + k
  }

  // ---------------------------------------------------------------------------
  // Backends

  /** A backend: its id, its `type`, whether it is the NullStorage, its
      permission bits and the objects it holds (always none for NullStorage). */
  datatype Backend = Backend(id: string, kind: string, isNull: bool, mode: int, store: map<string, seq<byte>>)
  {
    /** `read(content)`: NullStorage reads sizes, an object store its objects. */
    function Read(ref: string): (r: Result<seq<byte>, StorageError>)
      ensures !isNull ==> (r.Ok? <==> ref in store)
      ensures !isNull && r.Ok? ==> r.value == store[ref]
    {
      if isNull then NullRead(ref)
      else if ref in store then Ok(store[ref])
      else Err(ReadFailed)
    }
  }

  /** `new NullStorage()`: full permissions, nothing stored. */
  function NullStorage(): (b: Backend)
    ensures b.id == NilUuid && b.kind == "null" && b.isNull && Permits(b.mode, AnyStatus)
    ensures CanRead(b.mode) && CanWrite(b.mode) && CanDelete(b.mode)
  {
    Backend(NilUuid, "null", true, 7, map[])
  }

  /** `save(buffer, origin)`. NullStorage returns the size; an object store
      may fail, and when it succeeds it writes either over `origin` or under a
      new reference, and reading the reference it returns gives the buffer back. */
  method Save(b: Backend, buffer: seq<byte>, origin: Option<string>)
    returns (r: Result<string, StorageError>, after: Backend)
    ensures after == b.(store := after.store)
    ensures b.isNull ==> r == Ok(NullSave(buffer)) && after == b
    ensures !b.isNull && r.Ok? ==> after.store == b.store[r.value := buffer]
    ensures !b.isNull && r.Ok? ==> r.value != "" && after.Read(r.value) == Ok(buffer)
    ensures !b.isNull && r.Ok? && r.value != (if origin.Some? then origin.value else "") ==>
              r.value !in b.store
    ensures r.Err? ==> after == b
  {
    after := b;
    if b.isNull {
      r := Ok(NullSave(buffer));
      return;
    }
    var fails: bool :| true;
    if fails {
      r := Err(SaveFailed);
      return;
    }
    var overwrite: bool :| true;
    var ref: string;
    if overwrite && origin.Some? && origin.value != "" {
      ref := origin.value;
    } else {
      assert LongerThanAll(b.store.Keys) !in b.store;
      ref :| ref != "" && ref !in b.store;
    }
    after := b.(store := b.store[ref := buffer]);
    r := Ok(ref);
  }

  /** `delete(content)`: NullStorage does nothing; an object store may fail,
      and otherwise forgets the reference. */
  method Delete(b: Backend, ref: string) returns (r: Result<(), StorageError>, after: Backend)
    ensures after == b.(store := after.store)
    ensures b.isNull ==> r.Ok? && after == b
    ensures !b.isNull && r.Ok? ==> after.store == b.store - {ref}
    ensures r.Err? ==> after == b
  {
    after := b;
    if b.isNull {
      r := Ok(());
      return;
    }
    var fails: bool :| true;
    if fails {
      r := Err(DeleteFailed);
    } else {
      after := b.(store := b.store - {ref});
      r := Ok(());
    }
  }

  // ---------------------------------------------------------------------------
  // The registry

  predicate Distinct<T(==)>(s: seq<T>) {
    forall i, j :: 0 <= i < j < |s| ==> s[i] != s[j]
  }

  /** The sequence without any occurrence of x (`delete` keeps the other keys in order). */
  function Without<T(==, !new)>(s: seq<T>, x: T): (r: seq<T>)
    ensures forall y :: y in r <==> y in s && y != x
    ensures |r| <= |s| && (x in s ==> |r| < |s|)
    ensures Distinct(s) ==> Distinct(r)
    ensures x !in s ==> r == s
    decreases |s|
  {
    if s == [] then []
    else if s[0] == x then Without(s[1..], x)
    else
      var rest := Without(s[1..], x);
      assert Distinct(s) ==> s[0] !in s[1..];
      [s[0]] + rest
  }

  /** A sequence without repetitions has as many elements as its set. */
  lemma {:induction false} DistinctCard<T>(s: seq<T>)
    requires Distinct(s)
    ensures |set x | x in s| == |s|
    decreases |s|
  {
    if s != [] {
      var tail := s[1..];
      assert Distinct(tail);
      DistinctCard(tail);
      assert s[0] !in tail by {
        forall j | 0 <= j < |tail| ensures tail[j] != s[0] {
          assert tail[j] == s[j + 1];
        }
      }
      assert (set x | x in s) == (set x | x in tail) + {s[0]};
    }
  }

  /** `Find(status)` over the keys in enumeration order: the non-empty ids
      whose mode has the bit the status names (every id for "any"). */
  function FindSpec(order: seq<string>, modes: map<string, int>, status: Status): (ids: seq<string>)
    ensures |ids| <= |order|
    ensures forall k :: 0 <= k < |ids| ==> ids[k] != "" && ids[k] in modes && Permits(modes[ids[k]], status)
    decreases |order|
  {
    if order == [] then []
    else
      var last := order[|order| - 1];
      FindSpec(order[..|order| - 1], modes, status)
        + (if last != "" && last in modes && Permits(modes[last], status) then [last] else [])
  }

  /** The ids `Find` lists are exactly the registered non-empty ids with the
      permission, in enumeration order. */
  lemma {:induction false} FindSpecMembers(order: seq<string>, modes: map<string, int>, status: Status)
    ensures forall id :: id in FindSpec(order, modes, status) <==>
                           id in order && id != "" && id in modes && Permits(modes[id], status)
    decreases |order|
  {
    if order != [] {
      var init := order[..|order| - 1];
      FindSpecMembers(init, modes, status);
      assert order == init + [order[|order| - 1]];
    }
  }

  /** No id is listed twice when the keys are distinct. */
  lemma {:induction false} FindSpecDistinct(order: seq<string>, modes: map<string, int>, status: Status)
    requires Distinct(order)
    ensures Distinct(FindSpec(order, modes, status))
    decreases |order|
  {
    if order != [] {
      var init := order[..|order| - 1];
      var last := order[|order| - 1];
      FindSpecDistinct(init, modes, status);
      FindSpecMembers(init, modes, status);
      assert last !in init by {
        forall j | 0 <= j < |init| ensures init[j] != last {
          assert init[j] == order[j];
        }
      }
    }
  }

  /** `Find` as the code is written: the `else` branch pushes every non-empty
      id whatever the status. */
  function FindAsWritten(order: seq<string>): (ids: seq<string>)
    ensures forall id :: id in ids <==> id in order && id != ""
    decreases |order|
  {
    if order == [] then []
    else
      var last := order[|order| - 1];
      FindAsWritten(order[..|order| - 1]) + (if last != "" then [last] else [])
  }

  /** The discrepancy: a read-only backend is listed as writable. */
  lemma FindAsWrittenListsReadOnlyAsWritable()
    ensures FindAsWritten(["ro"]) == ["ro"]
    ensures FindSpec(["ro"], map["ro" := 4], WriteStatus) == []
  {
    assert ["ro"][..0] == [];
  }

  /** `StorageManager`: the `storages` dictionary, with its keys in
      enumeration order. */
  class StorageManager {
    var storages: map<string, Backend>
    /** The keys of `storages` in the order `for...in` visits them. */
    var order: seq<string>

    /** Every backend is registered under its own id; `order` lists each key once. */
    ghost predicate Valid()
      reads this
    {
      && (forall id :: id in storages <==> id in order)
      && Distinct(order)
      && (forall id :: id in storages ==> storages[id].id == id)
    }

    constructor()
      ensures Valid() && storages == map[] && order == []
    {
      storages := map[];
      order := [];
    }

    /** `Add(storage)`: registers the backend under its id, replacing one with
        the same id in place; a new id goes last. */
    method Add(storage: Backend)
      requires Valid()
      modifies this
      ensures Valid()
      ensures storages == old(storages)[storage.id := storage]
      ensures order == if storage.id in old(storages) then old(order) else old(order) + [storage.id]
      ensures GetStorage(storage.id) == Some(storage)
    {
      if storage.id !in storages {
        order := order + [storage.id];
      }
      storages := storages[storage.id := storage];
    }

    /** `Remove(id)`: unregisters that id only. */
    method Remove(id: string)
      requires Valid()
      modifies this
      ensures Valid()
      ensures storages == old(storages) - {id}
      ensures order == Without(old(order), id)
      ensures GetStorage(id) == None
    {
      storages := storages - {id};
      order := Without(order, id);
    }

    /** `Length()`: the number of registered ids. */
    function Length(): (n: nat)
      requires Valid()
      reads this
      ensures n == |storages|
    {
      DistinctCard(order);
      assert storages.Keys == set x | x in order;
      |order|
    }

    /** `GetStorage(id)`: the backend registered under id, if any. */
    function GetStorage(id: string): (r: Option<Backend>)
      requires Valid()
      reads this
      ensures r.Some? <==> id in storages
      ensures r.Some? ==> r.value.id == id && r.value == storages[id]
    {
      if id in storages then Some(storages[id]) else None
    }

    /** The mode of every registered backend. */
    function Modes(): (m: map<string, int>)
      reads this
      ensures m.Keys == storages.Keys
      ensures forall id :: id in storages ==> m[id] == storages[id].mode
    {
      map id | id in storages :: storages[id].mode
    }

    /** `save` on a registered backend: only what that backend holds changes. */
    method SaveTo(id: string, buffer: seq<byte>, origin: Option<string>) returns (r: Result<string, StorageError>)
      requires Valid() && id in storages
      modifies this`storages
      ensures Valid() && order == old(order)
      ensures storages == old(storages)[id := storages[id]]
      ensures storages[id] == old(storages)[id].(store := storages[id].store)
      ensures Modes() == old(Modes())
      ensures storages[id].isNull ==> r == Ok(NullSave(buffer)) && storages == old(storages)
      ensures !storages[id].isNull && r.Ok? ==> storages[id].store == old(storages)[id].store[r.value := buffer]
      ensures !storages[id].isNull && r.Ok? ==> r.value != "" && storages[id].Read(r.value) == Ok(buffer)
      ensures !storages[id].isNull && r.Ok? && r.value != (if origin.Some? then origin.value else "") ==>
                r.value !in old(storages)[id].store
      ensures r.Err? ==> storages == old(storages)
    {
      var after;
      r, after := Save(storages[id], buffer, origin);
      storages := storages[id := after];
    }

    /** `delete` on a registered backend: only what that backend holds changes. */
    method DeleteFrom(id: string, ref: string) returns (r: Result<(), StorageError>)
      requires Valid() && id in storages
      modifies this`storages
      ensures Valid() && order == old(order)
      ensures storages == old(storages)[id := storages[id]]
      ensures storages[id] == old(storages)[id].(store := storages[id].store)
      ensures Modes() == old(Modes())
      ensures storages[id].isNull ==> r.Ok? && storages == old(storages)
      ensures !storages[id].isNull && r.Ok? ==> storages[id].store == old(storages)[id].store - {ref}
      ensures storages[id].store.Keys <= old(storages)[id].store.Keys
      ensures r.Err? ==> storages == old(storages)
    {
      var after;
      r, after := Delete(storages[id], ref);
      storages := storages[id := after];
    }

    /** `Find(status)`, with the permission test the status names (see
        FindAsWritten for the code's fall-through). */
    method Find(status: Status) returns (idList: seq<string>)
      requires Valid()
      ensures idList == FindSpec(order, Modes(), status)
      ensures Distinct(idList)
      ensures forall id :: id in idList <==> id in storages && id != "" && Permits(storages[id].mode, status)
    {
      idList := [];
      ghost var modes := Modes();
      for k := 0 to |order|
        invariant idList == FindSpec(order[..k], modes, status)
      {
        var id := order[k];
        assert id in storages && modes[id] == storages[id].mode;
        assert FindSpec(order[..k + 1], modes, status) ==
               FindSpec(order[..k], modes, status) + (if id != "" && Permits(modes[id], status) then [id] else []) by {
          assert order[..k + 1][..k] == order[..k] && order[..k + 1][k] == id;
        }
        if id != "" && Permits(storages[id].mode, status) {
          idList := idList + [id];
        }
      }
      assert order[..|order|] == order;
      FindSpecDistinct(order, modes, status);
      assert forall id :: id in idList <==> id in storages && id != "" && Permits(storages[id].mode, status) by {
        FindSpecMembers(order, modes, status);
      }
    }
  }
}
