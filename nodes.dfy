/** Inodes as values (fs/inode.ts:299-456): the attributes of a file or
    directory, their serialised form `INodeSerializer`, the two ways the
    `INode` constructor fills them in, and `toJSON`.

    An inode's `BlockManager` is represented here by its block list, the
    part `toJSON` writes out. Snowflake ids come from an `IdWorker` whose ids
    only grow. */
module Nodes {
  import opened Wrappers
  import Blocks

  datatype NodeType = File | Dir

  /** `INodeSerializer`. `uid` and `gid` may be null or undefined; both are None. */
  datatype INodeRecord = INodeRecord(
    kind: NodeType, id: int, size: int, uid: Option<int>, gid: Option<int>,
    mode: int, ctime: int, mtime: int, atime: int, links: int,
    blocks: seq<Option<Blocks.Block>>)

  /** The state of an `INode` object. */
  datatype INode = INode(
    kind: NodeType, id: int, size: int, uid: Option<int>, gid: Option<int>,
    mode: int, ctime: int, mtime: int, atime: int, links: int,
    blocks: seq<Option<Blocks.Block>>)

  /** `new INode(manager, blockManager)` without `origin` (fs/inode.ts:412-423):
      a fresh id, created and modified now, everything else zero, a file with
      an empty block list. */
  function NewINode(id: int, now: int): (n: INode)
    ensures n.id == id && n.ctime == now && n.mtime == now && n.atime == 0
    ensures n.kind == File && n.size == 0 && n.links == 0 && n.mode == 0
    ensures n.uid == Some(0) && n.gid == Some(0) && n.blocks == []
  {
    INode(File, id, 0, Some(0), Some(0), 0, now, now, 0, 0, [])
  }

  /** `new INode(manager, blockManager, origin)` (fs/inode.ts:399-411). As
      written, `ctime` is taken from `origin.atime`. */
  function FromRecord(r: INodeRecord): (n: INode)
    ensures n.ctime == n.atime
  {
    INode(r.kind, r.id, r.size, r.uid, r.gid, r.mode, r.atime, r.mtime, r.atime, r.links, r.blocks)
  }

  /** `toJSON` (fs/inode.ts:427-442). As written, the `gid` field receives `uid`. */
  function ToRecord(n: INode): (r: INodeRecord)
    ensures r.gid == r.uid
  {
    INodeRecord(n.kind, n.id, n.size, n.uid, n.uid, n.mode, n.ctime, n.mtime, n.atime, n.links, n.blocks)
  }

  /** Loading a record keeps every attribute except `ctime`, which becomes `atime`. */
  lemma FromRecordAttributes(r: INodeRecord)
    ensures var n := FromRecord(r);
      && n.kind == r.kind && n.id == r.id && n.size == r.size && n.uid == r.uid && n.gid == r.gid
      && n.mode == r.mode && n.mtime == r.mtime && n.atime == r.atime && n.links == r.links
      && n.blocks == r.blocks && n.ctime == r.atime
  {
  }

  /** Saving and loading an inode loses its `ctime` (replaced by `atime`) and its
      `gid` (replaced by `uid`), and nothing else. */
  lemma SaveLoadINode(n: INode)
    ensures FromRecord(ToRecord(n)) == n.(ctime := n.atime, gid := n.uid)
  {
  }

  /** An inode survives saving and loading exactly when its `ctime` equals its
      `atime` and its `gid` equals its `uid`. */
  lemma SaveLoadExact(n: INode)
    ensures FromRecord(ToRecord(n)) == n <==> n.ctime == n.atime && n.gid == n.uid
  {
    if FromRecord(ToRecord(n)) == n {
      assert FromRecord(ToRecord(n)).ctime == n.atime;
      assert FromRecord(ToRecord(n)).gid == n.uid;
    }
  }

  /** A freshly created inode does not survive the trip when it was created at
      a time other than 0, since its `atime` is 0. */
  lemma FreshINodeLosesCtime(id: int, now: int)
    requires now != 0
    ensures FromRecord(ToRecord(NewINode(id, now))).ctime == 0
    ensures FromRecord(ToRecord(NewINode(id, now))) != NewINode(id, now)
  {
  }

  /** The snowflake id generator of fs/inode.ts:426: each id is greater than
      every id it issued before. */
  class IdWorker {
    var last: int

    constructor(start: int)
      ensures last == start
    {
      last := start;
    }

    method NextId() returns (id: int)
      modifies this
      ensures id > old(last) && last == id
    {
      id := last + 1;
      last := id;
    }
  }
}
