/** The block-backed WebDAV file system (fs/FogFileSystem.ts): the write
    stream that cuts a byte stream into fixed-size blocks, the read stream
    that hands the blocks back in index order, and the error codes of
    `_create`, `_delete` and `_move`.

    The stream callbacks are the methods' results; the `Promise.all` of a
    write batch runs its `WriteBlock` calls one after the other. */
module FogFs {
  import opened Wrappers
  import opened Bytes
  import opened Crypto
  import opened Blocks
  import opened Nodes
  import opened INodeTree

  /** The WebDAV outcomes the file system reports (`Errors.*`; NoError is
      `Errors.None` or a callback without an error). */
  datatype DavError =
    | NoError
    | InsufficientStorage
    | Forbidden
    | ResourceNotFound
    | ResourceAlreadyExists
    | InvalidOperation
    | IntermediateResourceMissing

  /** The outcome of a `__write__` batch (fs/FogFileSystem.ts:87-102), given
      what each `WriteBlock` call gave: a rejected call makes `Promise.all`
      reject (Forbidden); otherwise a call that produced no replica gives
      InsufficientStorage. */
  function WriteOutcome(results: seq<Result<nat, BlockError>>): (e: DavError)
    ensures e == Forbidden <==> exists k :: 0 <= k < |results| && results[k].Err?
    ensures e == InsufficientStorage <==>
              (forall k :: 0 <= k < |results| ==> results[k].Ok?) && exists k :: 0 <= k < |results| && results[k] == Ok(0)
    ensures e == NoError <==> forall k :: 0 <= k < |results| ==> results[k].Ok? && results[k].value > 0
    ensures e == NoError || e == Forbidden || e == InsufficientStorage
    decreases |results|
  {
    if results == [] then NoError
    else
      var rest := WriteOutcome(results[1..]);
      assert forall k :: 1 <= k < |results| ==> results[k] == results[1..][k - 1];
      if results[0].Err? || rest == Forbidden then Forbidden
      else if results[0] == Ok(0) || rest == InsufficientStorage then InsufficientStorage
      else NoError
  }

  /** The cached bytes, none when `_cached` is undefined. */
  function Tail(cached: Option<seq<byte>>): seq<byte> {
    if cached.Some? then cached.value else []
  }

  /** The for loop of `_write` (fs/FogFileSystem.ts:111-123): the contents
      are cut at multiples of blockSize; each full slice becomes a block and a
      short last slice becomes the new cache. */
  method Chunk(contents: seq<byte>, blockSize: nat) returns (full: seq<seq<byte>>, tail: Option<seq<byte>>)
    requires blockSize > 0
    ensures forall k :: 0 <= k < |full| ==> |full[k]| == blockSize
    ensures tail.Some? ==> 0 < |tail.value| < blockSize
    ensures Flatten(full) + Tail(tail) == contents
  {
    full, tail := [], None;
    var i := 0;
    while i < |contents|
      invariant forall k :: 0 <= k < |full| ==> |full[k]| == blockSize
      invariant tail.None? ==> i <= |contents| && Flatten(full) == contents[..i]
      invariant tail.Some? ==> i >= |contents| && 0 < |tail.value| < blockSize
                               && Flatten(full) + tail.value == contents
      decreases |contents| - i
    {
      // `subarray` stops at the end of the buffer
      var end := if i + blockSize <= |contents| then i + blockSize else |contents|;
      var tmp := contents[i..end];
      if |tmp| < blockSize {
        assert contents[..i] + tmp == contents;
        tail := Some(tmp);
      } else {
        FlattenAppend(full, [tmp]);
        assert contents[..i] + tmp == contents[..i + blockSize];
        full := full + [tmp];
      }
      i := i + blockSize;
    }
    if tail.None? {
      assert contents[..i] == contents;
    }
  }

  /** Block first + k holds the checksum of chunk k, for every chunk. */
  predicate HoldsFrom(blocks: seq<Option<Block>>, chunks: seq<seq<byte>>, first: nat) {
    && (chunks != [] ==> first + |chunks| <= |blocks|)
    && forall i :: first <= i < first + |chunks| ==>
         i < |blocks| && blocks[i].Some? && blocks[i].value.crc == Crc16(chunks[i - first])
  }

  /** Blocks before index first are as they were; none went away. */
  predicate KeptBefore(b0: seq<Option<Block>>, b1: seq<Option<Block>>, first: nat) {
    && |b0| <= |b1|
    && forall j :: 0 <= j < |b0| && j < first ==> b1[j] == b0[j]
  }

  /** Blocks kept before a batch and the batch written after them hold the
      chunks before and the batch together. */
  lemma KeptHolds(b0: seq<Option<Block>>, b1: seq<Option<Block>>, chunks: seq<seq<byte>>, batch: seq<seq<byte>>)
    requires HoldsFrom(b0, chunks, 0) && KeptBefore(b0, b1, |chunks|) && HoldsFrom(b1, batch, |chunks|)
    ensures HoldsFrom(b1, chunks + batch, 0)
  {
    forall i | 0 <= i < |chunks + batch|
      ensures i < |b1| && b1[i].Some? && b1[i].value.crc == Crc16((chunks + batch)[i - 0])
    {
      if i < |chunks| {
        assert (chunks + batch)[i] == chunks[i] && i < |b0|;
        assert b1[i] == b0[i];
      } else {
        assert (chunks + batch)[i] == batch[i - |chunks|];
      }
    }
  }

  /** Writing chunk k of a batch at index first + k keeps the chunks before
      it and the blocks before the batch. */
  lemma PutHolds(b0: seq<Option<Block>>, b1: seq<Option<Block>>, batch: seq<seq<byte>>, first: nat, k: nat, b: Block)
    requires k < |batch| && HoldsFrom(b0, batch[..k], first)
    requires b1 == Put(b0, first + k, b) && b.crc == Crc16(batch[k])
    ensures HoldsFrom(b1, batch[..k + 1], first) && KeptBefore(b0, b1, first)
  {
    forall i | first <= i < first + k + 1
      ensures i < |b1| && b1[i].Some? && b1[i].value.crc == Crc16(batch[..k + 1][i - first])
    {
      if i < first + k {
        assert batch[..k + 1][i - first] == batch[..k][i - first];
      }
    }
  }

  /** The stream invariant on values: the blocks written are full, and
      they, in index order followed by the cache, are exactly the bytes
      received; a cache is non-empty and shorter than a block. */
  predicate Accepted(input: seq<byte>, emitted: seq<seq<byte>>, cached: Option<seq<byte>>, blockSize: nat) {
    && (cached.Some? ==> 0 < |cached.value| < blockSize)
    && (forall k :: 0 <= k < |emitted| ==> |emitted[k]| == blockSize)
    && Flatten(emitted) + Tail(cached) == input
  }

  /** Cutting the cache followed by a new chunk keeps the stream invariant. */
  lemma AcceptChunk(input: seq<byte>, emitted: seq<seq<byte>>, cached: Option<seq<byte>>, blockSize: nat,
                    chunk: seq<byte>, full: seq<seq<byte>>, tail: Option<seq<byte>>)
    requires Accepted(input, emitted, cached, blockSize)
    requires forall k :: 0 <= k < |full| ==> |full[k]| == blockSize
    requires tail.Some? ==> 0 < |tail.value| < blockSize
    requires Flatten(full) + Tail(tail) == Tail(cached) + chunk
    ensures Accepted(input + chunk, emitted + full, tail, blockSize)
    ensures (emitted + full)[..|emitted|] == emitted
  {
    FlattenAppend(emitted, full);
    assert Flatten(emitted + full) + Tail(tail) == Flatten(emitted) + (Tail(cached) + chunk);
  }

  /** Writing the cache as the last block leaves nothing but whole blocks. */
  lemma AcceptFinal(input: seq<byte>, emitted: seq<seq<byte>>, cached: Option<seq<byte>>, blockSize: nat)
    requires Accepted(input, emitted, cached, blockSize) && cached.Some?
    ensures Flatten(emitted + [cached.value]) == input
  {
    FlattenAppend(emitted, [cached.value]);
    assert Flatten([cached.value]) == cached.value + Flatten([]);
  }

  /** `FogWritable` (fs/FogFileSystem.ts:77-141). The bytes received and the
      blocks handed to `WriteBlock` are kept as ghost history. */
  class FogWritable {
    const bm: BlockManager
    const blockSize: nat
    var size: nat
    var blockIndex: nat
    /** `_cached`; None is undefined. */
    var cached: Option<seq<byte>>
    /** Every chunk passed to `_write`, concatenated. */
    ghost var input: seq<byte>
    /** The blocks handed to `WriteBlock`, block k at index k. */
    ghost var emitted: seq<seq<byte>>

    /** Between calls: the size counts every byte received, the blocks
        written so far are full and hold, in index order followed by the
        cache, exactly the bytes received; the cache is shorter than a block;
        with a cryptor, block k of the inode holds the checksum of block k. */
    ghost predicate Valid()
      reads this, bm, bm.storageManager
    {
      && bm.Valid() && blockSize > 0
      && size == |input|
      && blockIndex == |emitted|
      && Accepted(input, emitted, cached, blockSize)
      && (bm.cryptos != [] ==> HoldsFrom(bm.blocks, emitted, 0))
    }

    /** `new FogWritable(inode, blockSize)`: nothing received yet. */
    constructor(bm: BlockManager, blockSize: nat)
      requires bm.Valid() && blockSize > 0
      ensures Valid() && this.bm == bm && this.blockSize == blockSize
      ensures size == 0 && blockIndex == 0 && cached.None? && input == [] && emitted == []
    {
      this.bm := bm;
      this.blockSize := blockSize;
      size, blockIndex, cached := 0, 0, None;
      input, emitted := [], [];
    }

    /** `__write__(chunks, callback)`: chunk k goes to index first + k; the
        outcome follows WriteOutcome. With no cryptor every call rejects and
        no block changes; with one, every call succeeds and writes its
        block, and no block before first changes. */
    method WriteBatch(batch: seq<seq<byte>>, first: nat)
      returns (e: DavError, results: seq<Result<nat, BlockError>>)
      requires bm.Valid()
      modifies bm`blocks, bm`cycleIndex, bm.storageManager`storages
      ensures bm.Valid()
      ensures |results| == |batch| && e == WriteOutcome(results)
      ensures bm.cryptos == [] ==> bm.blocks == old(bm.blocks) && (batch != [] ==> e == Forbidden)
      ensures bm.cryptos != [] ==>
                && (forall k :: 0 <= k < |results| ==> results[k].Ok?)
                && KeptBefore(old(bm.blocks), bm.blocks, first)
                && HoldsFrom(bm.blocks, batch, first)
    {
      results := [];
      for k := 0 to |batch|
        invariant bm.Valid() && |results| == k
        invariant bm.cryptos == [] ==> bm.blocks == old(bm.blocks) && forall j :: 0 <= j < k ==> results[j].Err?
        invariant bm.cryptos != [] ==>
                    && (forall j :: 0 <= j < k ==> results[j].Ok?)
                    && KeptBefore(old(bm.blocks), bm.blocks, first)
                    && HoldsFrom(bm.blocks, batch[..k], first)
      {
        ghost var b0 := bm.blocks;
        var rk := WriteChunk(first + k, batch[k]);
        results := results + [rk];
        if bm.cryptos != [] {
          PutHolds(b0, bm.blocks, batch, first, k, bm.blocks[first + k].value);
        }
      }
      assert batch[..|batch|] == batch;
      e := WriteOutcome(results);
      if bm.cryptos == [] && batch != [] {
        assert results[0].Err?;
      }
    }

    /** One `WriteBlock(index, chunk)` of a batch, as far as the write stream
        depends on it: the block at index is replaced, and reading it back
        right away gives the chunk whenever its first replica sits on a real
        backend. */
    method WriteChunk(index: nat, chunk: seq<byte>) returns (r: Result<nat, BlockError>)
      requires bm.Valid()
      modifies bm`blocks, bm`cycleIndex, bm.storageManager`storages
      ensures bm.Valid()
      ensures bm.cryptos == [] ==> r.Err? && bm.blocks == old(bm.blocks)
      ensures bm.cryptos != [] ==>
                && r.Ok? && index < |bm.blocks| && bm.blocks[index].Some?
                && bm.blocks[index].value.crc == Crc16(chunk)
                && bm.blocks == Put(old(bm.blocks), index, bm.blocks[index].value)
      ensures bm.cryptos != [] && bm.blocks[index].value.contents != [] &&
              bm.blocks[index].value.contents[0].id in bm.storageManager.storages &&
              !bm.storageManager.storages[bm.blocks[index].value.contents[0].id].isNull ==>
                ReadSpec(bm.blocks[index], bm.cryptos, bm.storageManager.storages) == Ok(chunk)
    {
      ghost var claims, looked, left;
      r, claims, looked, left := bm.WriteBlock(index, chunk);
    }

    /** The cutting half of `_write` (fs/FogFileSystem.ts:104-115): the
        cache followed by the chunk is cut into full blocks, which are
        counted as emitted from the next index on, and a short rest, which
        becomes the cache. No block is written yet. */
    method Cut(chunk: seq<byte>) returns (full: seq<seq<byte>>, first: nat)
      requires Valid()
      modifies this`size, this`cached, this`blockIndex, this`input, this`emitted
      ensures size == |input| && blockIndex == |emitted| && Accepted(input, emitted, cached, blockSize)
      ensures input == old(input) + chunk && emitted == old(emitted) + full && first == |old(emitted)|
      ensures emitted[..|old(emitted)|] == old(emitted)
    {
      size := size + |chunk|;
      var contents := if cached.Some? then cached.value + chunk else chunk;
      var tail;
      full, tail := Chunk(contents, blockSize);
      AcceptChunk(input, emitted, cached, blockSize, chunk, full, tail);
      first := blockIndex;
      cached := tail;
      blockIndex := blockIndex + |full|;
      input := input + chunk;
      emitted := emitted + full;
    }

    /** `_write(chunk)` (fs/FogFileSystem.ts:103-125): the cache and the
        chunk are cut into blocks written at the next indices, and the short
        rest is cached. */
    method Write(chunk: seq<byte>) returns (e: DavError, results: seq<Result<nat, BlockError>>)
      requires Valid()
      modifies this, bm`blocks, bm`cycleIndex, bm.storageManager`storages
      ensures Valid()
      ensures input == old(input) + chunk
      ensures |old(emitted)| <= |emitted| && emitted[..|old(emitted)|] == old(emitted)
      ensures |results| == |emitted| - |old(emitted)| && e == WriteOutcome(results)
      ensures bm.cryptos != [] ==> forall k :: 0 <= k < |results| ==> results[k].Ok?
    {
      ghost var before := emitted;
      var full, first := Cut(chunk);
      ghost var b0 := bm.blocks;
      e, results := WriteBatch(full, first);
      if bm.cryptos != [] {
        KeptHolds(b0, bm.blocks, before, full);
      }
    }

    /** `_final` (fs/FogFileSystem.ts:126-140) as written: a cached tail is
        written as one more block, after which the callback runs; with
        nothing cached the cache is cleared and the callback never runs
        (None), so the stream never reports that it finished. */
    method FinalAsWritten() returns (e: Option<DavError>)
      requires Valid()
      modifies this, bm`blocks, bm`cycleIndex, bm.storageManager`storages
      ensures cached.None? && Flatten(emitted) == input
      ensures old(cached).None? ==> e.None? && emitted == old(emitted)
      ensures old(cached).Some? ==>
                && emitted == old(emitted) + [old(cached).value]
                && e == Some(WriteOutcome(lastResults)) && |lastResults| == 1
    {
      if cached.Some? && |cached.value| > 0 {
        e := Final();
      } else {
        cached := None;
        e := None;
      }
    }

    /** The results of the last batch written by Final. */
    ghost var lastResults: seq<Result<nat, BlockError>>

    /** `_final` as evidently intended: a cached tail is written as one more
        block at the next index; the callback always runs, with no error
        when nothing was cached. Afterwards the blocks written, in index
        order, are exactly the bytes received. */
    method Final() returns (e: Option<DavError>)
      requires Valid()
      modifies this, bm`blocks, bm`cycleIndex, bm.storageManager`storages
      ensures e.Some? && cached.None? && Flatten(emitted) == input
      ensures old(cached).None? ==> e == Some(NoError) && emitted == old(emitted) && bm.blocks == old(bm.blocks)
      ensures old(cached).Some? ==>
                && emitted == old(emitted) + [old(cached).value]
                && e == Some(WriteOutcome(lastResults)) && |lastResults| == 1
                && (bm.cryptos != [] ==> HoldsFrom(bm.blocks, emitted, 0))
    {
      if cached.Some? {
        var tail := cached.value;
        ghost var before := emitted;
        ghost var b0 := bm.blocks;
        var first := blockIndex;
        blockIndex := blockIndex + 1;
        AcceptFinal(input, emitted, cached, blockSize);
        var outcome, results := WriteBatch([tail], first);
        lastResults := results;
        cached := None;
        emitted := emitted + [tail];
        if bm.cryptos != [] {
          KeptHolds(b0, bm.blocks, before, [tail]);
        }
        e := Some(outcome);
      } else {
        e := Some(NoError);
      }
    }
  }

  /** `ReadBlock(k)` for every index k of a block list. */
  function Reads(slots: seq<Option<Block>>, cryptos: seq<Cryptor>, views: map<string, Storage.Backend>)
    : (rs: seq<Result<seq<byte>, BlockError>>)
    ensures |rs| == |slots| && forall k :: 0 <= k < |slots| ==> rs[k] == ReadSpec(slots[k], cryptos, views)
  {
    seq(|slots|, k requires 0 <= k < |slots| => ReadSpec(slots[k], cryptos, views))
  }

  /** A run of reads consumed in order: every content when all succeed,
      otherwise the error of the first that fails. */
  function Collect(rs: seq<Result<seq<byte>, BlockError>>): (r: Result<seq<seq<byte>>, BlockError>)
    ensures r.Ok? ==> |r.value| == |rs| && forall k :: 0 <= k < |rs| ==> rs[k] == Ok(r.value[k])
    ensures r.Err? ==> exists k :: 0 <= k < |rs| && rs[k] == Err(r.error) && forall j :: 0 <= j < k ==> rs[j].Ok?
    decreases |rs|
  {
    if rs == [] then Ok([])
    else
      var init := rs[..|rs| - 1];
      assert forall k :: 0 <= k < |init| ==> init[k] == rs[k];
      match Collect(init)
      case Err(e) => Err(e)
      case Ok(p) =>
        match rs[|rs| - 1]
        case Ok(v) => Ok(p + [v])
        case Err(e) => Err(e)
  }

  /** Consuming one more read: a content is appended, an error is the error
      of the whole run. */
  lemma CollectStep(rs: seq<Result<seq<byte>, BlockError>>, k: nat, p: seq<seq<byte>>)
    requires k < |rs| && Collect(rs[..k]) == Ok(p)
    ensures rs[k].Ok? ==> Collect(rs[..k + 1]) == Ok(p + [rs[k].value])
    ensures rs[k].Err? ==> Collect(rs) == Err(rs[k].error)
  {
    assert rs[..k + 1][..k] == rs[..k];
    if rs[k].Err? {
      CollectErrPrefix(rs, k + 1);
    }
  }

  /** Once a prefix of the reads fails, the whole run fails the same way. */
  lemma {:induction false} CollectErrPrefix(rs: seq<Result<seq<byte>, BlockError>>, n: nat)
    requires n <= |rs| && Collect(rs[..n]).Err?
    ensures Collect(rs) == Collect(rs[..n])
    decreases |rs| - n
  {
    if n < |rs| {
      assert rs[..n + 1][..n] == rs[..n];
      CollectErrPrefix(rs, n + 1);
    } else {
      assert rs[..n] == rs;
    }
  }

  /** `FogReadable` (fs/FogFileSystem.ts:51-76): reads block 0, 1, ... and
      pushes each block's contents; the end of the stream is pushed after
      the last index, and a failed read emits an error. */
  class FogReadable {
    const bm: BlockManager
    /** `_count`: the next index to read. */
    var count: nat
    /** `push(null)` was called. */
    var ended: bool
    /** The error emitted, if any. */
    var failed: Option<BlockError>
    /** The contents pushed so far. */
    var pushed: seq<seq<byte>>

    constructor(bm: BlockManager)
      ensures this.bm == bm && count == 0 && !ended && failed.None? && pushed == []
    {
      this.bm := bm;
      count, ended, failed, pushed := 0, false, None, [];
    }

    /** `_read()`: past the last index the stream ends; otherwise block
        count is read and pushed (or its error emitted), and the stream ends
        once the last index was read. */
    method Read()
      requires bm.Valid()
      modifies this
      ensures old(count) >= |bm.blocks| ==> ended && count == old(count) && pushed == old(pushed) && failed == old(failed)
      ensures old(count) < |bm.blocks| ==> count == old(count) + 1
      ensures old(count) < |bm.blocks| ==>
                var got := ReadSpec(bm.blocks[old(count)], bm.cryptos, bm.storageManager.storages);
                && (got.Ok? ==> pushed == old(pushed) + [got.value] && failed == old(failed)
                                && ended == (old(ended) || count >= |bm.blocks|))
                && (got.Err? ==> failed == Some(got.error) && pushed == old(pushed) && ended == old(ended))
    {
      if count >= |bm.blocks| {
        ended := true;
        return;
      }
      var content := bm.ReadBlock(count);
      count := count + 1;
      if content.Err? {
        failed := Some(content.error);
        return;
      }
      pushed := pushed + [content.value];
      if count >= |bm.blocks| {
        ended := true;
      }
    }

    /** The stream consumed to its end: the contents of block 0, 1, ... in
        order when every block reads, or the first failing read's error. */
    method Drain()
      requires bm.Valid() && count == 0 && !ended && failed.None? && pushed == []
      modifies this
      ensures ended || failed.Some?
      ensures var all := Collect(Reads(bm.blocks, bm.cryptos, bm.storageManager.storages));
        && (all.Ok? ==> ended && failed.None? && pushed == all.value)
        && (all.Err? ==> failed == Some(all.error))
    {
      ghost var rs := Reads(bm.blocks, bm.cryptos, bm.storageManager.storages);
      while !ended && failed.None?
        invariant count <= |rs|
        invariant failed.None? ==> Collect(rs[..count]) == Ok(pushed)
        invariant failed.None? && !ended ==> (count < |rs| || count == 0)
        invariant ended ==> count == |rs| && failed.None?
        invariant failed.Some? ==> Collect(rs) == Err(failed.value)
        decreases |rs| - count, if ended then 0 else 1
      {
        ghost var k := count;
        ghost var p := pushed;
        Read();
        if k < |rs| {
          CollectStep(rs, k, p);
        }
      }
      if failed.None? {
        assert rs[..count] == rs;
      }
    }
  }

  /** How `_move` reports a failed `moveINode` (fs/FogFileSystem.ts:326-336). */
  function MoveError(e: INodeError): (d: DavError)
    ensures d == ResourceNotFound <==> e == INodeError.NotFound
    ensures d == ResourceAlreadyExists <==> e == AlreadyExists
    ensures d == Forbidden <==> e == TooDeep || e == FreeFailed
  {
    match e
    case NotFound => ResourceNotFound
    case AlreadyExists => ResourceAlreadyExists
    case TooDeep => Forbidden
    case FreeFailed => Forbidden
  }

  /** `_create` (fs/FogFileSystem.ts:160-177): an existing path is refused,
      otherwise an inode of the requested type is created there. */
  method Create(m: INodeManager, path: string, kind: NodeType, now: int) returns (e: DavError)
    requires m.Valid()
    modifies m`inodes, m`order, m`events, m.idWork
    ensures m.Valid()
    ensures path in old(m.inodes) ==>
              e == ResourceAlreadyExists && m.inodes == old(m.inodes) && m.events == old(m.events)
    ensures path !in old(m.inodes) ==>
              && e == NoError && path in m.inodes && m.inodes[path].kind == kind
              && m.inodes == old(m.inodes)[path := m.inodes[path]]
  {
    if m.GetINode(path).Some? {
      return ResourceAlreadyExists;
    }
    var _ := m.CreateINode(path, kind, now);
    e := NoError;
  }

  /** `_delete` (fs/FogFileSystem.ts:179-205): an absent path is not found;
      otherwise the path is removed with its blocks and its subtree. A file
      whose blocks cannot be freed stays, and the answer is Forbidden. */
  method Delete(m: INodeManager, path: string) returns (e: DavError)
    requires m.Valid()
    modifies m`inodes, m`order, m`events, m`freed
    ensures m.Valid()
    ensures path !in old(m.inodes) ==> e == ResourceNotFound && m.inodes == old(m.inodes)
    ensures e == NoError ==> path in old(m.inodes) && path !in m.inodes
    ensures path in old(m.inodes) && old(m.inodes)[path].kind == File ==>
              || (e == NoError && m.inodes == old(m.inodes) - {path})
              || (e == Forbidden && m.inodes == old(m.inodes))
    ensures INodeTree.Shrunk(old(m.inodes), m.inodes, path)
  {
    if m.GetINode(path).None? {
      return ResourceNotFound;
    }
    var r := m.RemoveINode(path, true, true);
    if r.Err? {
      // a child vanished, or a file's blocks could not be freed
      e := if r.error == INodeError.NotFound then ResourceNotFound else Forbidden;
      return;
    }
    e := NoError;
  }

  /** `_move` (fs/FogFileSystem.ts:321-339): the errors of `moveINode`
      reported as WebDAV errors. The up-front NotFound and AlreadyExists
      checks change nothing; a child move that fails part way leaves the
      children moved before it where they went. */
  method Move(m: INodeManager, from: string, to: string, overwrite: bool, fuel: nat) returns (e: DavError)
    requires m.Valid()
    modifies m`inodes, m`order, m`events, m`freed
    ensures m.Valid()
    ensures from !in old(m.inodes) ==> e == ResourceNotFound && m.inodes == old(m.inodes)
    ensures from in old(m.inodes) && to in old(m.inodes) && !overwrite ==>
              e == ResourceAlreadyExists && m.inodes == old(m.inodes)
    ensures e == NoError ==> to in m.inodes && m.inodes[to] == old(m.inodes)[from]
    ensures e == NoError && old(m.inodes)[from].kind == Dir && INodeTree.Apart(from, to)
            && INodeTree.NoTrailingSlash(old(m.inodes), from) ==>
              INodeTree.Relocated(old(m.inodes), m.inodes, from, to, fuel)
    ensures Moved(old(m.inodes), m.inodes, from, to, overwrite)
  {
    var r := m.MoveINode(from, to, overwrite, fuel);
    e := if r.Ok? then NoError else MoveError(r.error);
  }
}
