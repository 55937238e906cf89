/** The flat WebDAV file system (fs/ZseaFileSystem.ts): every path is a key of
    one `resources` dictionary, a file's bytes live in the blocks
    `/block.<id>.<i>.bin` of an abstract storage, and the dictionary itself is
    persisted as a JSON index under `/inode`.

    The storage is seen only through the requests the file system hands it:
    the save requests of a write stream, the delete requests of `deleteFile`
    and the index contents given to `saveINode`. Whether a request succeeds is
    a parameter of the operation that waits for it. */
module ZseaFs {
  import opened Wrappers
  import opened Bytes
  import opened Nodes
  import opened PathUtil
  import INodeTree
  import FogFs

  type DavError = FogFs.DavError

  /** `new ZseaFileSystemResource(type)` without a block size. */
  const DefaultBlockSize: nat := 4096

  /** `ZseaFileSystemResource` without its property and lock managers. Dates
      are milliseconds; 0 stands for every falsy value. */
  datatype Resource = Resource(
    size: nat,
    lastModified: int,
    creation: int,
    kind: NodeType,
    id: string,
    blockSize: nat)

  /** A resource made from a resource type (fs/ZseaFileSystem.ts:63-85): empty,
      both dates set to now, a fresh id. */
  function NewResource(kind: NodeType, id: string, blockSize: nat, now: int): (r: Resource)
    ensures r.size == 0 && r.kind == kind && r.id == id && r.blockSize == blockSize
    ensures r.lastModified == now && r.creation == now
  {
    Resource(0, now, now, kind, id, blockSize)
  }

  /** `v ? v : now`: a falsy date is replaced by the current time. */
  function OrNow(v: int, now: int): int {
    if v != 0 then v else now
  }

  // ---------------------------------------------------------------------------
  // Block names and block counts

  /** The storage key of block i of file id. */
  function BlockPath(id: string, i: nat): string {
    "/block." + id + "." + NatToString(i) + ".bin"
  }

  /** Within one file, different blocks have different keys. */
  lemma BlockPathInjective(id: string, i: nat, j: nat)
    requires BlockPath(id, i) == BlockPath(id, j)
    ensures i == j
  {
    var pre := "/block." + id + ".";
    var a := BlockPath(id, i);
    var b := BlockPath(id, j);
    assert a == pre + (NatToString(i) + ".bin");
    assert b == pre + (NatToString(j) + ".bin");
    assert a[|pre|..] == NatToString(i) + ".bin";
    assert b[|pre|..] == NatToString(j) + ".bin";
    var si := NatToString(i) + ".bin";
    var sj := NatToString(j) + ".bin";
    assert si[..|si| - 4] == NatToString(i);
    assert sj[..|sj| - 4] == NatToString(j);
    NatToStringInjective(i, j);
  }

  /** `Math.ceil(n / b)` for a positive block size. */
  function Ceil(n: nat, b: nat): nat
    requires b > 0
  {
    (n + b - 1) / b
  }

  lemma DivOfForm(q: nat, s: nat, b: nat)
    requires s < b
    ensures (q * b + s) / b == q
  {
    var n := q * b + s;
    var d := n / b;
    assert n == d * b + n % b && 0 <= n % b < b;
    if d > q {
      MulMono(q + 1, d, b);
    } else if d < q {
      MulMono(d + 1, q, b);
    }
  }

  lemma MulMono(x: nat, y: nat, b: nat)
    requires x <= y
    ensures x * b <= y * b
  {
    assert y * b == x * b + (y - x) * b;
  }

  /** k full blocks and r more bytes make k blocks, plus one when r > 0. */
  lemma CeilBlocks(k: nat, r: nat, b: nat)
    requires r < b
    ensures Ceil(k * b + r, b) == k + (if r > 0 then 1 else 0)
  {
    if r == 0 {
      DivOfForm(k, b - 1, b);
    } else {
      assert k * b + r + b - 1 == (k + 1) * b + (r - 1);
      DivOfForm(k + 1, r - 1, b);
    }
  }

  /** Ceil(n / b) blocks of b bytes hold n bytes, and one block fewer does not. */
  lemma CeilBounds(n: nat, b: nat)
    requires b > 0
    ensures n <= Ceil(n, b) * b
    ensures Ceil(n, b) == 0 || (Ceil(n, b) - 1) * b < n
  {
    var q, r := n / b, n % b;
    assert n == q * b + r;
    CeilBlocks(q, r, b);
    if r > 0 {
      assert (q + 1) * b == q * b + b;
    } else if q > 0 {
      assert (q - 1) * b == q * b - b;
    }
  }

  /** `Math.ceil(size / blockSize)` as the bound of the loops
      `for (i = 0; i < count; i++)` at fs/ZseaFileSystem.ts:227 and 358: the
      fewest blocks that hold `size` bytes. A zero block size makes the bound
      Infinity when `size` is positive (None: no count holds the bytes, and
      the loop never ends) and NaN when `size` is 0, which no index is below,
      so that loop runs no times. */
  function BlockCount(size: nat, blockSize: nat): (n: Option<nat>)
    ensures n.None? <==> blockSize == 0 && size > 0
    ensures n.Some? ==> size <= n.value * blockSize && (n.value == 0 || (n.value - 1) * blockSize < size)
  {
    if blockSize > 0 then
      CeilBounds(size, blockSize);
      Some(Ceil(size, blockSize))
    else if size == 0 then Some(0)
    else None
  }

  /** The keys `deleteFile` and `_openReadStream` enumerate for a file of
      `size` bytes, when their loop ends. */
  function BlockPaths(id: string, size: nat, blockSize: nat): (paths: seq<string>)
    requires BlockCount(size, blockSize).Some?
  {
    seq(BlockCount(size, blockSize).value, i requires 0 <= i => BlockPath(id, i))
  }

  /** One key per started block, no key twice: a delete or a read visits
      every block of the file once. */
  lemma BlockPathsDistinct(id: string, size: nat, blockSize: nat)
    requires BlockCount(size, blockSize).Some?
    ensures |BlockPaths(id, size, blockSize)| == BlockCount(size, blockSize).value
    ensures forall i, j :: 0 <= i < j < |BlockPaths(id, size, blockSize)| ==>
              BlockPaths(id, size, blockSize)[i] != BlockPaths(id, size, blockSize)[j]
  {
    var ps := BlockPaths(id, size, blockSize);
    forall i, j | 0 <= i < j < |ps| ensures ps[i] != ps[j] {
      if ps[i] == ps[j] {
        BlockPathInjective(id, i, j);
      }
    }
  }

  // ---------------------------------------------------------------------------
  // The write stream (fs/ZseaFileSystem.ts:116-167)

  /** One `storage.save(path, data)` request. */
  datatype SaveRequest = SaveRequest(path: string, data: seq<byte>)

  /** The data of a list of save requests. */
  function Contents(tasks: seq<SaveRequest>): (d: seq<seq<byte>>)
    ensures |d| == |tasks|
    ensures forall k :: 0 <= k < |tasks| ==> d[k] == tasks[k].data
  {
    seq(|tasks|, k requires 0 <= k < |tasks| => tasks[k].data)
  }

  /** The keys of a list of save requests. */
  function Keys(tasks: seq<SaveRequest>): seq<string> {
    KeysOf(tasks, (t: SaveRequest) => t.path)
  }

  class ZseaFileWritable {
    const id: string
    const blockSize: nat
    var index: nat
    var buffer: seq<byte>
    var totalSize: nat
    /** The save requests issued so far (`tasks`), in order. */
    var tasks: seq<SaveRequest>
    /** Everything passed to `_write` so far. */
    ghost var input: seq<byte>

    /** Block k is saved under key k; the requests and the buffer together
        hold the input, and `size` is its length. */
    ghost predicate Valid()
      reads this
    {
      && totalSize == |input|
      && index == |tasks|
      && (forall k :: 0 <= k < |tasks| ==> tasks[k].path == BlockPath(id, k))
      && Flatten(Contents(tasks)) + buffer == input
    }

    /** Between two `_write` calls: every block so far is full and the buffer
        holds less than a block. With a zero block size no `_write` call
        returns, so the only such state is the fresh one. */
    ghost predicate Streaming()
      reads this
    {
      && Valid()
      && (forall k :: 0 <= k < |tasks| ==> |tasks[k].data| == blockSize)
      && (|buffer| < blockSize || (blockSize == 0 && tasks == [] && buffer == []))
    }

    /** A new stream (fs/ZseaFileSystem.ts:116-124). Any block size is
        accepted, 0 included. */
    constructor (id: string, blockSize: nat)
      ensures Streaming()
      ensures this.id == id && this.blockSize == blockSize
      ensures tasks == [] && input == [] && buffer == []
    {
      this.id := id;
      this.blockSize := blockSize;
      index := 0;
      buffer := [];
      totalSize := 0;
      tasks := [];
      input := [];
    }

    /** `save` (fs/ZseaFileSystem.ts:125-140): while a whole block is
        buffered, cut it off and ask the storage to save it, then call back
        without an error. With a zero block size the loop condition
        `buffer.length >= 0` always holds: the loop never ends and the
        callback never runs (None). */
    method Save() returns (e: Option<DavError>)
      requires Valid()
      requires forall k :: 0 <= k < |tasks| ==> |tasks[k].data| == blockSize
      modifies this`index, this`buffer, this`tasks
      ensures Valid() && old(tasks) <= tasks
      ensures e.None? <==> blockSize == 0
      ensures e.Some? ==> e.value == FogFs.NoError && Streaming()
    {
      if blockSize == 0 {
        return None;
      }
      while |buffer| >= blockSize
        invariant Valid()
        invariant forall k :: 0 <= k < |tasks| ==> |tasks[k].data| == blockSize
        invariant old(tasks) <= tasks
        decreases |buffer|
      {
        var block := buffer[..blockSize];
        CutBlock(Contents(tasks), buffer, blockSize);
        assert Contents(tasks + [SaveRequest(BlockPath(id, index), block)]) == Contents(tasks) + [block];
        tasks := tasks + [SaveRequest(BlockPath(id, index), block)];
        index := index + 1;
        buffer := buffer[blockSize..];
      }
      e := Some(FogFs.NoError);
    }

    /** `_write` (fs/ZseaFileSystem.ts:151-158): count the bytes, buffer them
        and save the whole blocks. The callback carries no error whatever the
        saves later do; with a zero block size it never runs (None), even for
        an empty chunk. */
    method Write(chunk: seq<byte>) returns (e: Option<DavError>)
      requires Streaming()
      modifies this`index, this`buffer, this`tasks, this`totalSize, this`input
      ensures Valid()
      ensures input == old(input) + chunk
      ensures totalSize == old(totalSize) + |chunk|
      ensures old(tasks) <= tasks
      ensures e.None? <==> blockSize == 0
      ensures e.Some? ==> e.value == FogFs.NoError && Streaming()
    {
      totalSize := totalSize + |chunk|;
      input := input + chunk;
      buffer := buffer + chunk;
      e := Save();
    }

    /** `onSaveCompleted` (fs/ZseaFileSystem.ts:141-147): save what is left
        in the buffer, if anything. Afterwards the requests hold the whole
        input in BlockCount(size, blockSize) blocks, under exactly the keys
        `deleteFile` and `_openReadStream` enumerate. The buffer is not
        emptied. */
    method OnSaveCompleted()
      requires Streaming()
      modifies this`index, this`tasks
      ensures Flatten(Contents(tasks)) == input
      ensures BlockCount(totalSize, blockSize) == Some(|tasks|)
      ensures Keys(tasks) == BlockPaths(id, totalSize, blockSize)
      ensures forall k :: 0 <= k < |tasks| ==> 0 < |tasks[k].data| <= blockSize
      ensures old(tasks) <= tasks && buffer == old(buffer)
    {
      if blockSize > 0 {
        FlattenUniform(Contents(tasks), blockSize);
        CeilBlocks(|tasks|, |buffer|, blockSize);
      }
      if |buffer| > 0 {
        FlattenAppend(Contents(tasks), [buffer]);
        assert Flatten([buffer]) == buffer + Flatten([]);
        assert Contents(tasks + [SaveRequest(BlockPath(id, index), buffer)]) == Contents(tasks) + [buffer];
        tasks := tasks + [SaveRequest(BlockPath(id, index), buffer)];
        index := index + 1;
      }
    }
  }

  /** Cutting a whole block off the buffer keeps block list + buffer intact. */
  lemma CutBlock(blocks: seq<seq<byte>>, buffer: seq<byte>, n: nat)
    requires n <= |buffer|
    ensures Flatten(blocks + [buffer[..n]]) + buffer[n..] == Flatten(blocks) + buffer
  {
    FlattenAppend(blocks, [buffer[..n]]);
    assert Flatten([buffer[..n]]) == buffer[..n] + Flatten([]);
    assert buffer[..n] + buffer[n..] == buffer;
  }

  // ---------------------------------------------------------------------------
  // The index (fs/ZseaFileSystem.ts:234-267)

  /** The `type` field of an index entry. */
  function TypeTag(kind: NodeType): string {
    if kind == File then "file" else "dir"
  }

  /** Reading the `type` field back: anything but "file" is a directory. */
  function TypeOf(tag: string): (kind: NodeType)
    ensures kind == File <==> tag == "file"
  {
    if tag == "file" then File else Dir
  }

  /** One element of the JSON array saved under `/inode` (`iNode`). */
  datatype IndexEntry = IndexEntry(
    size: nat,
    kind: string,
    path: string,
    lastModified: int,
    creation: int,
    id: string,
    blockSize: nat)

  /** The entry `getINode` writes for path (fs/ZseaFileSystem.ts:237-245). */
  function Entry(path: string, r: Resource): IndexEntry {
    IndexEntry(r.size, TypeTag(r.kind), path, r.lastModified, r.creation, r.id, r.blockSize)
  }

  /** The resource `Initialization` rebuilds from an entry
      (fs/ZseaFileSystem.ts:257-264, through the constructor at 63-85): a
      missing block size falls back to the file system's, falsy dates to now. */
  function Restore(e: IndexEntry, defaultBlockSize: nat, now: int): (r: Resource)
    ensures defaultBlockSize > 0 ==> r.blockSize > 0
  {
    Resource(
      e.size,
      OrNow(e.lastModified, now),
      OrNow(e.creation, now),
      TypeOf(e.kind),
      e.id,
      if e.blockSize != 0 then e.blockSize else defaultBlockSize)
  }

  /** Writing a resource to the index and reading it back keeps its size, type
      and id, and its block size and dates when they are non-zero; it gives
      back the very same resource exactly when nothing needed a fallback. */
  lemma EntryRoundTrip(path: string, r: Resource, defaultBlockSize: nat, now: int)
    ensures var b := Restore(Entry(path, r), defaultBlockSize, now);
      && b.size == r.size && b.kind == r.kind && b.id == r.id
      && (r.blockSize != 0 ==> b.blockSize == r.blockSize)
      && (r.lastModified != 0 ==> b.lastModified == r.lastModified)
      && (r.creation != 0 ==> b.creation == r.creation)
    ensures Restore(Entry(path, r), defaultBlockSize, now) == r <==>
              && (r.blockSize != 0 || defaultBlockSize == 0)
              && (r.lastModified != 0 || now == 0)
              && (r.creation != 0 || now == 0)
  {
    assert TypeOf(TypeTag(r.kind)) == r.kind;
  }

  /** The paths of an index. */
  function PathsOf(files: seq<IndexEntry>): seq<string> {
    KeysOf(files, (e: IndexEntry) => e.path)
  }

  /** files is an index of m: one entry per key of m, no key twice, every
      entry the one `getINode` writes for its path. */
  ghost predicate IsIndexOf(files: seq<IndexEntry>, m: map<string, Resource>) {
    && (forall p :: p in m <==> p in PathsOf(files))
    && (forall k :: 0 <= k < |files| ==> files[k].path in m && files[k] == Entry(files[k].path, m[files[k].path]))
    && (forall i, j :: 0 <= i < j < |files| ==> files[i].path != files[j].path)
  }

  /** The resources an index rebuilds, a later entry for a path replacing an
      earlier one. */
  function Restored(files: seq<IndexEntry>, defaultBlockSize: nat, now: int): (m: map<string, Resource>)
    ensures forall p :: p in m <==> p in PathsOf(files)
    ensures defaultBlockSize > 0 ==> forall p :: p in m ==> m[p].blockSize > 0
    decreases |files|
  {
    if files == [] then map[]
    else
      var last := files[|files| - 1];
      var m := Restored(files[..|files| - 1], defaultBlockSize, now);
      assert PathsOf(files) == PathsOf(files[..|files| - 1]) + [last.path];
      m[last.path := Restore(last, defaultBlockSize, now)]
  }

  /** Reading one more entry of an index over existing resources. */
  lemma RestoredStep(base: map<string, Resource>, files: seq<IndexEntry>, i: nat, defaultBlockSize: nat, now: int)
    requires i < |files|
    ensures (base + Restored(files[..i], defaultBlockSize, now))[files[i].path := Restore(files[i], defaultBlockSize, now)]
         == base + Restored(files[..i + 1], defaultBlockSize, now)
  {
    assert files[..i + 1][..i] == files[..i];
  }

  /** In an index without repeated paths, each path gets back what its one
      entry says. */
  lemma {:induction false} RestoredEntry(files: seq<IndexEntry>, k: nat, defaultBlockSize: nat, now: int)
    requires k < |files|
    requires forall i, j :: 0 <= i < j < |files| ==> files[i].path != files[j].path
    ensures files[k].path in Restored(files, defaultBlockSize, now)
    ensures Restored(files, defaultBlockSize, now)[files[k].path] == Restore(files[k], defaultBlockSize, now)
    decreases |files|
  {
    var init := files[..|files| - 1];
    if k < |files| - 1 {
      RestoredEntry(init, k, defaultBlockSize, now);
      assert files[k].path != files[|files| - 1].path;
    }
  }

  /** The index round trip (fs/ZseaFileSystem.ts:234-267): reading back an
      index of m gives a resource for exactly the paths of m, each the
      restored form of its own resource. */
  lemma IndexRoundTrip(files: seq<IndexEntry>, m: map<string, Resource>, defaultBlockSize: nat, now: int)
    requires IsIndexOf(files, m)
    ensures Restored(files, defaultBlockSize, now).Keys == m.Keys
    ensures forall p :: p in m ==>
              Restored(files, defaultBlockSize, now)[p] == Restore(Entry(p, m[p]), defaultBlockSize, now)
  {
    var r := Restored(files, defaultBlockSize, now);
    forall p | p in m
      ensures r[p] == Restore(Entry(p, m[p]), defaultBlockSize, now)
    {
      var k :| 0 <= k < |files| && PathsOf(files)[k] == p;
      RestoredEntry(files, k, defaultBlockSize, now);
    }
  }

  // ---------------------------------------------------------------------------
  // Sizes

  /** The total size of the resources under keys. */
  ghost function SizeSum(m: map<string, Resource>, keys: set<string>): nat
    requires keys <= m.Keys
    decreases |keys|
  {
    if keys == {} then 0
    else
      var p :| p in keys;
      m[p].size + SizeSum(m, keys - {p})
  }

  /** Any key may be taken out first. */
  lemma {:induction false} SizeSumRemove(m: map<string, Resource>, keys: set<string>, q: string)
    requires keys <= m.Keys && q in keys
    ensures SizeSum(m, keys) == m[q].size + SizeSum(m, keys - {q})
    decreases |keys|
  {
    var p :| p in keys && SizeSum(m, keys) == m[p].size + SizeSum(m, keys - {p});
    if p != q {
      SizeSumRemove(m, keys - {p}, q);
      SizeSumRemove(m, keys - {q}, p);
      assert keys - {p} - {q} == keys - {q} - {p};
    }
  }

  /** Every resource counts towards the total. */
  lemma SizeSumBound(m: map<string, Resource>, q: string)
    requires q in m
    ensures m[q].size <= SizeSum(m, m.Keys)
  {
    SizeSumRemove(m, m.Keys, q);
  }

  // ---------------------------------------------------------------------------
  // The file system (fs/ZseaFileSystem.ts:210-453)

  /** Every resource has a positive block size, so `Math.ceil(size /
      blockSize)` is a block count for each of them. */
  ghost predicate PositiveBlockSizes(m: map<string, Resource>) {
    forall p :: p in m ==> m[p].blockSize > 0
  }

  class ZseaFileSystem {
    const blockSize: nat
    var resources: map<string, Resource>
    /** The `storage.delete` requests issued so far, in order. */
    var deletes: seq<string>
    /** The index contents handed to `storage.save("/inode", ...)`, in order. */
    var indexWrites: seq<seq<IndexEntry>>

    /** A resource gets a zero block size only from a file system whose
        own block size is zero. */
    ghost predicate Valid()
      reads this
    {
      blockSize > 0 ==> PositiveBlockSizes(resources)
    }

    /** A file system holding only the root directory, whose resource is made
        with the default block size (fs/ZseaFileSystem.ts:216-223). Any block
        size is accepted, 0 included. */
    constructor (blockSize: nat, rootId: string, now: int)
      ensures Valid() && this.blockSize == blockSize
      ensures resources == map["/" := NewResource(Dir, rootId, DefaultBlockSize, now)]
      ensures deletes == [] && indexWrites == []
    {
      this.blockSize := blockSize;
      resources := map["/" := NewResource(Dir, rootId, DefaultBlockSize, now)];
      deletes := [];
      indexWrites := [];
    }

    /** `deleteFile` (fs/ZseaFileSystem.ts:224-233): ask the storage to delete
        each of the file's BlockCount(size, blockSize) blocks. Failures are
        swallowed. A non-empty file with a zero block size has no such count:
        the loop never ends and the call never returns (done is false). */
    method DeleteFile(file: Resource) returns (done: bool)
      modifies this`deletes
      ensures done <==> BlockCount(file.size, file.blockSize).Some?
      ensures done ==> deletes == old(deletes) + BlockPaths(file.id, file.size, file.blockSize)
      ensures old(deletes) <= deletes
    {
      if BlockCount(file.size, file.blockSize).None? {
        return false;
      }
      var count := BlockCount(file.size, file.blockSize).value;
      for i := 0 to count
        invariant deletes == old(deletes) + BlockPaths(file.id, file.size, file.blockSize)[..i]
      {
        deletes := deletes + [BlockPath(file.id, i)];
        assert BlockPaths(file.id, file.size, file.blockSize)[..i + 1]
            == BlockPaths(file.id, file.size, file.blockSize)[..i] + [BlockPath(file.id, i)];
      }
      assert BlockPaths(file.id, file.size, file.blockSize)[..count] == BlockPaths(file.id, file.size, file.blockSize);
      done := true;
    }

    /** `getINode` (fs/ZseaFileSystem.ts:234-248): one entry per resource, in
        the dictionary's key order, which the model leaves open. */
    method GetINode() returns (files: seq<IndexEntry>)
      ensures IsIndexOf(files, resources)
    {
      files := [];
      var rest := resources.Keys;
      while rest != {}
        invariant rest <= resources.Keys
        invariant forall p :: p in resources && p !in rest <==> p in PathsOf(files)
        invariant forall k :: 0 <= k < |files| ==>
                    files[k].path in resources && files[k] == Entry(files[k].path, resources[files[k].path])
        invariant forall i, j :: 0 <= i < j < |files| ==> files[i].path != files[j].path
        decreases |rest|
      {
        var p :| p in rest;
        assert PathsOf(files + [Entry(p, resources[p])]) == PathsOf(files) + [p];
        files := files + [Entry(p, resources[p])];
        rest := rest - {p};
      }
    }

    /** `saveINode` (fs/ZseaFileSystem.ts:275-278): hand the current index to
        the storage. */
    method SaveINode()
      modifies this`indexWrites
      ensures |indexWrites| == |old(indexWrites)| + 1 && indexWrites[..|old(indexWrites)|] == old(indexWrites)
      ensures IsIndexOf(indexWrites[|indexWrites| - 1], resources)
    {
      var files := GetINode();
      indexWrites := indexWrites + [files];
    }

    /** `Initialization` (fs/ZseaFileSystem.ts:249-267): the entries of the
        stored index are added over the current resources, later entries
        winning. An unreadable or unparsable index (None) changes nothing. */
    method Initialization(stored: Option<seq<IndexEntry>>, now: int)
      requires Valid()
      modifies this`resources
      ensures Valid()
      ensures stored.None? ==> resources == old(resources)
      ensures stored.Some? ==> resources == old(resources) + Restored(stored.value, blockSize, now)
    {
      if stored.None? {
        return;
      }
      var files := stored.value;
      for i := 0 to |files|
        invariant resources == old(resources) + Restored(files[..i], blockSize, now)
        invariant Valid()
      {
        RestoredStep(old(resources), files, i, blockSize, now);
        resources := resources[files[i].path := Restore(files[i], blockSize, now)];
      }
      assert files[..|files|] == files;
    }

    /** `_create` (fs/ZseaFileSystem.ts:284-295): bind a new empty resource
        with the file system's block size, replacing whatever the path held.
        Only a directory saves the index; a failed save is reported but the
        resource stays. */
    method Create(path: string, kind: NodeType, id: string, now: int, indexSaved: bool) returns (e: DavError)
      requires Valid()
      modifies this`resources, this`indexWrites
      ensures Valid()
      ensures resources == old(resources)[path := NewResource(kind, id, blockSize, now)]
      ensures kind == File ==> e == FogFs.NoError && indexWrites == old(indexWrites)
      ensures kind == Dir ==>
                && |indexWrites| == |old(indexWrites)| + 1
                && IsIndexOf(indexWrites[|indexWrites| - 1], resources)
                && (e == FogFs.NoError <==> indexSaved)
                && (e == FogFs.NoError || e == FogFs.InsufficientStorage)
    {
      resources := resources[path := NewResource(kind, id, blockSize, now)];
      if kind == Dir {
        SaveINode();
        e := if indexSaved then FogFs.NoError else FogFs.InsufficientStorage;
        return;
      }
      e := FogFs.NoError;
    }

    /** `_delete` (fs/ZseaFileSystem.ts:297-314): drop the path and every key
        that starts with its slash-terminated form, save the index, then ask
        the storage to delete the path's own blocks. The blocks of the
        dropped descendants are not deleted. An absent path makes
        `deleteFile` throw after the save, which is reported as
        InsufficientStorage; so does the root "/", which is its own
        slash-terminated form and is dropped by the prefix sweep. When
        `deleteFile` never returns, neither does the callback (None); that
        needs a zero block size. */
    method Delete(path: string, indexSaved: bool) returns (e: Option<DavError>)
      requires Valid()
      modifies this`resources, this`deletes, this`indexWrites
      ensures Valid()
      ensures forall p :: p in resources <==>
                p in old(resources) && p != path && !StartsWith(p, INodeTree.Base(path))
      ensures forall p :: p in resources ==> resources[p] == old(resources)[p]
      ensures |indexWrites| == |old(indexWrites)| + 1 && IsIndexOf(indexWrites[|indexWrites| - 1], resources)
      ensures e != Some(FogFs.InsufficientStorage) <==> indexSaved && path in old(resources) && !EndsWith(path, "/")
      ensures e == Some(FogFs.InsufficientStorage) ==> deletes == old(deletes)
      ensures e != Some(FogFs.InsufficientStorage) ==>
                && (e.None? <==> BlockCount(old(resources)[path].size, old(resources)[path].blockSize).None?)
                && (e.Some? ==>
                      && e == Some(FogFs.NoError)
                      && deletes == old(deletes) + BlockPaths(old(resources)[path].id, old(resources)[path].size, old(resources)[path].blockSize))
      ensures blockSize > 0 ==> e.Some?
    {
      var sPath := INodeTree.Base(path);
      var rest := resources.Keys;
      while rest != {}
        invariant rest <= old(resources).Keys
        invariant forall p :: p in resources <==> p in old(resources) && (p in rest || !StartsWith(p, sPath))
        invariant forall p :: p in resources ==> resources[p] == old(resources)[p]
        invariant deletes == old(deletes) && indexWrites == old(indexWrites)
        decreases |rest|
      {
        var p :| p in rest;
        if StartsWith(p, sPath) {
          resources := resources - {p};
        }
        rest := rest - {p};
      }
      assert StartsWith(path, sPath) <==> EndsWith(path, "/");
      var file := if path in resources then Some(resources[path]) else None;
      resources := resources - {path};
      SaveINode();
      if !indexSaved || file.None? {
        return Some(FogFs.InsufficientStorage);
      }
      var done := DeleteFile(file.value);
      e := if done then Some(FogFs.NoError) else None;
    }

    /** `_move` (fs/ZseaFileSystem.ts:430-453): the target key takes the
        source's resource and the source key goes; a replaced target's blocks
        are deleted. Keys below the source stay where they are. Moving a path
        onto itself with overwrite drops it and deletes its blocks. When
        deleting the old target's blocks never returns, the index is not
        saved and the callback never runs (None); that needs a zero block
        size. */
    method Move(from: string, to: string, overwrite: bool, indexSaved: bool) returns (e: Option<DavError>)
      requires Valid()
      modifies this`resources, this`deletes, this`indexWrites
      ensures Valid()
      ensures from !in old(resources) ==>
                e == Some(FogFs.ResourceNotFound) && resources == old(resources)
                && deletes == old(deletes) && indexWrites == old(indexWrites)
      ensures from in old(resources) && to in old(resources) && !overwrite ==>
                e == Some(FogFs.ResourceAlreadyExists) && resources == old(resources)
                && deletes == old(deletes) && indexWrites == old(indexWrites)
      ensures from in old(resources) && (to !in old(resources) || overwrite) ==>
                && (from != to ==> to in resources && resources[to] == old(resources)[from] && from !in resources)
                && (from == to ==> from !in resources)
                && (forall p :: p != from && p != to ==>
                      (p in resources <==> p in old(resources)) && (p in resources ==> resources[p] == old(resources)[p]))
                && (e.None? <==> to in old(resources) && BlockCount(old(resources)[to].size, old(resources)[to].blockSize).None?)
                && (e.None? ==> indexWrites == old(indexWrites))
                && (e.Some? ==>
                      && deletes == old(deletes) +
                           (if to in old(resources)
                            then BlockPaths(old(resources)[to].id, old(resources)[to].size, old(resources)[to].blockSize)
                            else [])
                      && |indexWrites| == |old(indexWrites)| + 1 && IsIndexOf(indexWrites[|indexWrites| - 1], resources)
                      && (e == Some(FogFs.NoError) <==> indexSaved)
                      && (e == Some(FogFs.NoError) || e == Some(FogFs.InvalidOperation)))
      ensures blockSize > 0 ==> e.Some?
    {
      if from !in resources {
        return Some(FogFs.ResourceNotFound);
      }
      var target := if to in resources then Some(resources[to]) else None;
      if target.Some? && !overwrite {
        return Some(FogFs.ResourceAlreadyExists);
      }
      resources := resources[to := resources[from]] - {from};
      if target.Some? {
        var done := DeleteFile(target.value);
        if !done {
          return None;
        }
      }
      SaveINode();
      e := if indexSaved then Some(FogFs.NoError) else Some(FogFs.InvalidOperation);
    }

    /** The block keys `_openReadStream` reads (fs/ZseaFileSystem.ts:352-366),
        in order; an absent path is not found. A non-empty file with a zero
        block size has no block count: the loop never ends and the callback
        never runs (None). */
    method ReadKeys(path: string) returns (r: Option<Result<seq<string>, DavError>>)
      requires Valid()
      ensures path !in resources ==> r == Some(Err(FogFs.ResourceNotFound))
      ensures path in resources ==>
                && (r.None? <==> BlockCount(resources[path].size, resources[path].blockSize).None?)
                && (r.Some? ==> r.value == Ok(BlockPaths(resources[path].id, resources[path].size, resources[path].blockSize)))
      ensures blockSize > 0 ==> r.Some?
    {
      if path !in resources {
        return Some(Err(FogFs.ResourceNotFound));
      }
      var file := resources[path];
      if BlockCount(file.size, file.blockSize).None? {
        return None;
      }
      var count := BlockCount(file.size, file.blockSize).value;
      var keys: seq<string> := [];
      for i := 0 to count
        invariant keys == BlockPaths(file.id, file.size, file.blockSize)[..i]
      {
        keys := keys + [BlockPath(file.id, i)];
        assert BlockPaths(file.id, file.size, file.blockSize)[..i + 1]
            == BlockPaths(file.id, file.size, file.blockSize)[..i] + [BlockPath(file.id, i)];
      }
      assert BlockPaths(file.id, file.size, file.blockSize)[..count]
          == BlockPaths(file.id, file.size, file.blockSize);
      r := Some(Ok(keys));
    }

    /** `getReservedSize` as written (fs/ZseaFileSystem.ts:268-274): the loop
        reads every size but adds none of them, so the answer is always 0. */
    method ReservedSizeAsWritten() returns (size: nat)
      ensures size == 0
    {
      size := 0;
      var rest := resources.Keys;
      while rest != {}
        invariant rest <= resources.Keys
        invariant size == 0
        decreases |rest|
      {
        var p :| p in rest;
        var _ := resources[p].size;
        rest := rest - {p};
      }
    }

    /** `getReservedSize` as evidently meant: the sum of all resource sizes. */
    method ReservedSize() returns (size: nat)
      ensures size == SizeSum(resources, resources.Keys)
      ensures forall p :: p in resources ==> resources[p].size <= size
    {
      size := 0;
      var rest := resources.Keys;
      while rest != {}
        invariant rest <= resources.Keys
        invariant size + SizeSum(resources, rest) == SizeSum(resources, resources.Keys)
        decreases |rest|
      {
        var p :| p in rest;
        SizeSumRemove(resources, rest, p);
        size := size + resources[p].size;
        rest := rest - {p};
      }
      forall p | p in resources
        ensures resources[p].size <= size
      {
        SizeSumBound(resources, p);
      }
    }
  }

  /** The missing addition in `getReservedSize` shows as soon as one stored
      file is non-empty: the intended total is positive, the written one 0. */
  lemma ReservedSizeGap(m: map<string, Resource>, q: string)
    requires q in m && m[q].size > 0
    ensures SizeSum(m, m.Keys) > 0
  {
    SizeSumBound(m, q);
  }

  /** The blocks of a completed write stream are saved under pairwise
      different keys, so none overwrites another. */
  lemma SavedKeysDistinct(w: ZseaFileWritable)
    requires BlockCount(w.totalSize, w.blockSize).Some?
    requires Keys(w.tasks) == BlockPaths(w.id, w.totalSize, w.blockSize)
    ensures forall i, j :: 0 <= i < j < |w.tasks| ==> w.tasks[i].path != w.tasks[j].path
  {
    BlockPathsDistinct(w.id, w.totalSize, w.blockSize);
    forall i, j | 0 <= i < j < |w.tasks|
      ensures w.tasks[i].path != w.tasks[j].path
    {
      assert Keys(w.tasks)[i] == w.tasks[i].path && Keys(w.tasks)[j] == w.tasks[j].path;
    }
  }
}
