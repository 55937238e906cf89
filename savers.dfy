/** Snapshot savers (fs/isaver.ts).

    A snapshot is a timestamp and a map from path to serialised inode.
    `FullSaver` turns the inode map into a snapshot on save and gives the
    empty snapshot when its store yields nothing on load; `MemorySaver` keeps
    the last snapshot in a field; `ArraySaver` fans a save out to all its
    members and, on load, keeps the member snapshot with the greatest
    timestamp. The JSON text between save and load is represented by the
    snapshot value itself, and `Date.now()` by a parameter. */
module Savers {
  import opened Wrappers
  import opened Nodes

  datatype Snapshot = Snapshot(timestamp: int, inodes: map<string, INodeRecord>)

  /** `{timestamp: 0, inodes: {}}`. */
  const EmptySnapshot: Snapshot := Snapshot(0, map[])

  /** The `_inodes` map built by `FullSaver.SaveInodes` (fs/isaver.ts:22-25):
      every path of the inode map, bound to the serialised form of its inode. */
  method CollectInodes(inodes: map<string, INode>) returns (m: map<string, INodeRecord>)
    ensures m.Keys == inodes.Keys
    ensures forall p :: p in m ==> m[p] == ToRecord(inodes[p])
  {
    m := map[];
    var rest := inodes.Keys;
    while rest != {}
      invariant rest <= inodes.Keys
      invariant m.Keys == inodes.Keys - rest
      invariant forall p :: p in m ==> m[p] == ToRecord(inodes[p])
      decreases |rest|
    {
      var p :| p in rest;
      m := m[p := ToRecord(inodes[p])];
      rest := rest - {p};
    }
  }

  /** `FullSaver.LoadInodes` (fs/isaver.ts:32-39), given what `_saver_read`
      yields: the snapshot stored, or the empty snapshot when nothing is. */
  function LoadFrom(stored: Option<Snapshot>): (s: Snapshot)
    ensures stored.None? ==> s == EmptySnapshot
    ensures stored.Some? ==> s == stored.value
  {
    if stored.Some? then stored.value else EmptySnapshot
  }

  /** A saved snapshot of the inode map taken at time now. */
  predicate Holds(stored: Option<Snapshot>, inodes: map<string, INode>, now: int) {
    && stored.Some?
    && stored.value.timestamp == now
    && stored.value.inodes.Keys == inodes.Keys
    && forall p :: p in inodes ==> stored.value.inodes[p] == ToRecord(inodes[p])
  }

  /** `MemorySaver`: a `FullSaver` whose store is a field (fs/isaver.ts:86-95). */
  class MemorySaver {
    var content: Option<Snapshot>

    constructor()
      ensures content == None
    {
      content := None;
    }

    /** `SaveInodes`: the snapshot written holds the clock reading and every
        path of the map with its serialised inode. */
    method SaveInodes(inodes: map<string, INode>, now: int)
      modifies this
      ensures Holds(content, inodes, now)
    {
      var m := CollectInodes(inodes);
      content := Some(Snapshot(now, m));
    }

    /** `LoadInodes`: the last snapshot saved, or the empty one before any save. */
    method LoadInodes() returns (s: Snapshot)
      ensures content.None? ==> s == EmptySnapshot
      ensures content.Some? ==> s == content.value
    {
      s := LoadFrom(content);
    }
  }

  /** Snapshot i is the one `ArraySaver.LoadInodes` keeps: no snapshot has a
      greater timestamp and every earlier one has a smaller timestamp. */
  predicate IsLatest(list: seq<Snapshot>, i: int) {
    && 0 <= i < |list|
    && (forall j :: 0 <= j < |list| ==> list[j].timestamp <= list[i].timestamp)
    && (forall j :: 0 <= j < i ==> list[j].timestamp < list[i].timestamp)
  }

  /** At most one snapshot of a list is the latest. */
  lemma LatestUnique(list: seq<Snapshot>, i: int, k: int)
    requires IsLatest(list, i) && IsLatest(list, k)
    ensures i == k
  {
    assert list[i].timestamp == list[k].timestamp;
  }

  /** The selection loop of `ArraySaver.LoadInodes` (fs/isaver.ts:62-78): the
      first snapshot of greatest timestamp (a later one replaces the current
      choice only when strictly newer), or the empty snapshot for no members. */
  method PickLatest(list: seq<Snapshot>) returns (v: Snapshot)
    ensures list == [] ==> v == EmptySnapshot
    ensures list != [] ==> exists i :: IsLatest(list, i) && v == list[i]
  {
    var chosen: Option<Snapshot> := None;
    ghost var at := 0;
    for i := 0 to |list|
      invariant i == 0 <==> chosen.None?
      invariant i > 0 ==> IsLatest(list[..i], at) && chosen == Some(list[at])
    {
      if chosen.None? {
        chosen := Some(list[i]);
        at := i;
        continue;
      }
      if chosen.value.timestamp < list[i].timestamp {
        chosen := Some(list[i]);
        at := i;
      }
    }
    if chosen.None? {
      v := EmptySnapshot;
    } else {
      v := chosen.value;
      assert list[..|list|] == list;
    }
  }

  /** `ArraySaver` (fs/isaver.ts:55-85), whose members are in-memory savers. */
  class ArraySaver {
    var saverList: seq<MemorySaver>

    constructor()
      ensures saverList == []
    {
      saverList := [];
    }

    /** `Add`: members are kept in the order they were added. */
    method Add(saver: MemorySaver)
      modifies this
      ensures saverList == old(saverList) + [saver]
    {
      saverList := saverList + [saver];
    }

    /** `SaveInodes`: every member saves the same inode map. */
    method SaveInodes(inodes: map<string, INode>, now: int)
      modifies saverList
      ensures forall s :: s in saverList ==> Holds(s.content, inodes, now)
    {
      for k := 0 to |saverList|
        invariant forall j :: 0 <= j < k ==> Holds(saverList[j].content, inodes, now)
      {
        saverList[k].SaveInodes(inodes, now);
      }
      forall s | s in saverList
        ensures Holds(s.content, inodes, now)
      {
        var j :| 0 <= j < |saverList| && saverList[j] == s;
      }
    }

    /** What each member's `LoadInodes` gives, in member order. */
    function Loaded(): (list: seq<Snapshot>)
      reads this, saverList
      ensures |list| == |saverList|
      ensures forall j :: 0 <= j < |saverList| ==> list[j] == LoadFrom(saverList[j].content)
    {
      seq(|saverList|, j reads this, saverList requires 0 <= j < |saverList| => LoadFrom(saverList[j].content))
    }

    /** `LoadInodes`: the latest member snapshot, the earliest member winning
        ties, or the empty snapshot when there are no members. */
    method LoadInodes() returns (v: Snapshot)
      ensures saverList == [] ==> v == EmptySnapshot
      ensures saverList != [] ==> exists i :: IsLatest(Loaded(), i) && v == Loaded()[i]
    {
      var list: seq<Snapshot> := [];
      for k := 0 to |saverList|
        invariant list == Loaded()[..k]
      {
        var s := saverList[k].LoadInodes();
        list := list + [s];
      }
      assert list == Loaded();
      v := PickLatest(list);
      if list != [] {
        var i :| IsLatest(list, i) && v == list[i];
        assert IsLatest(Loaded(), i) && v == Loaded()[i];
      }
    }
  }
}
