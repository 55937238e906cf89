/** The block replication engine, `BlockManager` (fs/inode.ts:44-297).

    A file is a sparse array of blocks. Each block records the CRC-16/MODBUS
    of its plaintext, the id of the cryptor its replicas were written with,
    and its replicas: for each, the id of the backend, the reference that
    backend returned from `save`, and the backend's type. */
module Blocks {
  import opened Wrappers
  import opened Bytes
  import opened Storage
  import opened Crypto

  /** `BlockContent`: one replica of a block. */
  datatype Replica = Replica(id: string, content: string, kind: string)

  /** `Block`. The source calls the checksum field `crc32`; it holds the
      16-bit CRC-16/MODBUS. */
  datatype Block = Block(crc: bv16, contents: seq<Replica>, crypto: string)

  /** How fresh backends are chosen: "random", "cycle" or "all". */
  datatype Placement = RandomPlacement | CyclePlacement | AllPlacement

  datatype BlockError =
    | NoCryptor   // `cryptos[0]` is undefined: the write throws a TypeError
    | NotFound    // no block at the index, or no replica could be read
    | NotCryptor  // the block's cryptor id is not registered
    | NoBlock     // DeleteBlock on a hole: a TypeError
    | DeleteFailed
    | CallStack   // a replica with an empty backend id sends DeleteBlock into endless recursion

  /** One entry of the selector built by WriteBlock: the backend to save to
      and, for a reused old replica, the reference to pass as `origin`. */
  datatype Claim = Claim(id: string, kind: string, origin: Option<string>)

  /** The backend ids of a list of replicas or claims, in order. */
  function Ids(reps: seq<Replica>): seq<string> {
    KeysOf(reps, (rep: Replica) => rep.id)
  }

  function ClaimIds(claims: seq<Claim>): seq<string> {
    KeysOf(claims, (c: Claim) => c.id)
  }

  /** The replicas of the block at index, or none for a hole. */
  function OldContents(blocks: seq<Option<Block>>, index: nat): seq<Replica>
  {
    if index < |blocks| && blocks[index].Some? then blocks[index].value.contents else []
  }

  /** `blocks[index] = b` on a JavaScript array: writing past the end leaves holes. */
  function Put(blocks: seq<Option<Block>>, index: nat, b: Block): (r: seq<Option<Block>>)
    ensures |r| == if index < |blocks| then |blocks| else index + 1
    ensures r[index] == Some(b)
    ensures forall j :: 0 <= j < |blocks| && j != index ==> r[j] == blocks[j]
    ensures forall j :: |blocks| <= j < |r| && j != index ==> r[j] == None
  {
    if index < |blocks| then blocks[index := Some(b)]
    else blocks + seq(index - |blocks|, _ => None) + [Some(b)]
  }

  // ---------------------------------------------------------------------------
  // Reuse of old replicas

  predicate WritableIn(modes: map<string, int>, id: string) {
    id in modes && CanWrite(modes[id])
  }

  /** The old replicas WriteBlock reuses, as (backend id, origin) pairs: those
      whose backend is registered and writable, in stored order. */
  function Reusable(olds: seq<Replica>, modes: map<string, int>): seq<(string, string)>
    decreases |olds|
  {
    if olds == [] then []
    else
      var last := olds[|olds| - 1];
      Reusable(olds[..|olds| - 1], modes)
        + (if WritableIn(modes, last.id) then [(last.id, last.content)] else [])
  }

  /** The claims that carry an origin, as (backend id, origin) pairs. */
  function Reused(claims: seq<Claim>): seq<(string, string)>
    decreases |claims|
  {
    if claims == [] then []
    else
      var last := claims[|claims| - 1];
      Reused(claims[..|claims| - 1])
        + (if last.origin.Some? then [(last.id, last.origin.value)] else [])
  }

  lemma {:induction false} ReusableAppend(a: seq<Replica>, b: seq<Replica>, modes: map<string, int>)
    ensures Reusable(a + b, modes) == Reusable(a, modes) + Reusable(b, modes)
    decreases |b|
  {
    if b == [] {
      assert a + b == a;
    } else {
      var init, last := b[..|b| - 1], b[|b| - 1];
      var x := if WritableIn(modes, last.id) then [(last.id, last.content)] else [];
      ReusableAppend(a, init, modes);
      assert (a + b)[..|a + b| - 1] == a + init && (a + b)[|a + b| - 1] == last;
      calc {
        Reusable(a + b, modes);
        Reusable(a + init, modes) + x;
        (Reusable(a, modes) + Reusable(init, modes)) + x;
        Reusable(a, modes) + (Reusable(init, modes) + x);
        Reusable(a, modes) + Reusable(b, modes);
      }
    }
  }

  lemma {:induction false} ReusedAppend(a: seq<Claim>, b: seq<Claim>)
    ensures Reused(a + b) == Reused(a) + Reused(b)
    decreases |b|
  {
    if b == [] {
      assert a + b == a;
    } else {
      var init := b[..|b| - 1];
      ReusedAppend(a, init);
      assert (a + b)[..|a + b| - 1] == a + init;
    }
  }

  /** The fresh (origin-less) claims name distinct ids taken from the list. */
  predicate FreshFrom(claims: seq<Claim>, idList: seq<string>) {
    forall k :: 0 <= k < |claims| && claims[k].origin.None? ==>
      claims[k].id in idList
      && forall j :: 0 <= j < k && claims[j].origin.None? ==> claims[j].id != claims[k].id
  }

  /** Ids WriteBlock may still pick: distinct, non-empty and writable. */
  predicate CandidatesIn(idList: seq<string>, modes: map<string, int>) {
    Distinct(idList) && forall id :: id in idList ==> id != "" && WritableIn(modes, id)
  }

  /** A selector entry names a registered writable backend under its own id. */
  predicate ClaimIn(c: Claim, storages: map<string, Backend>, modes: map<string, int>) {
    c.id in storages && storages[c.id].kind == c.kind && WritableIn(modes, c.id)
  }

  /** The state of WriteBlock's selection: the claims made so far, the
      candidate ids still free (taken from `from`), and the old replicas
      looked at. Every claim names a registered writable backend no longer
      free; every id of `from` is still free or claimed; no fresh claim
      repeats an id; the claims that reuse an old replica are exactly the
      writable ones among those looked at, in order. */
  predicate Selected(claims: seq<Claim>, idList: seq<string>, from: seq<string>, looked: seq<Replica>,
                     storages: map<string, Backend>, modes: map<string, int>) {
    && CandidatesIn(idList, modes)
    && (forall id :: id in idList ==> id in from)
    && (forall c :: c in claims ==> ClaimIn(c, storages, modes) && c.id !in idList)
    && (forall id :: id in from ==> id in idList || id in ClaimIds(claims))
    && FreshFrom(claims, from)
    && Reused(claims) == Reusable(looked, modes)
  }

  /** Before any choice nothing is claimed. */
  lemma SelectedNothing(idList: seq<string>, looked: seq<Replica>,
                        storages: map<string, Backend>, modes: map<string, int>)
    requires CandidatesIn(idList, modes) && Reusable(looked, modes) == []
    ensures Selected([], idList, idList, looked, storages, modes)
  {
  }

  /** One claim, after looking at the given old replicas. */
  lemma SelectedOne(c: Claim, idList: seq<string>, looked: seq<Replica>,
                    storages: map<string, Backend>, modes: map<string, int>)
    requires CandidatesIn(idList, modes) && ClaimIn(c, storages, modes)
    requires c.origin.None? ==> c.id in idList
    requires Reusable(looked, modes) == if c.origin.Some? then [(c.id, c.origin.value)] else []
    ensures Selected([c], Without(idList, c.id), idList, looked, storages, modes)
  {
    assert [c][..0] == [];
    assert ClaimIds([c]) == [c.id];
  }

  /** What one old replica contributes to the reuse accounting. */
  lemma ReusableOne(rep: Replica, modes: map<string, int>)
    ensures Reusable([rep], modes) == if WritableIn(modes, rep.id) then [(rep.id, rep.content)] else []
  {
    assert [rep][..0] == [];
  }

  /** Two selections in a row make one: the second starts from the ids the
      first left free and looks at the old replicas after those of the first. */
  lemma SelectedCompose(a: seq<Claim>, b: seq<Claim>, l1: seq<string>, l2: seq<string>, from: seq<string>,
                        x: seq<Replica>, y: seq<Replica>,
                        storages: map<string, Backend>, modes: map<string, int>)
    requires Selected(a, l1, from, x, storages, modes) && Selected(b, l2, l1, y, storages, modes)
    ensures Selected(a + b, l2, from, x + y, storages, modes)
  {
    assert ClaimIds(a + b) == ClaimIds(a) + ClaimIds(b);
    FreshCompose(a, b, l1, from);
    ReusedAppend(a, b);
    ReusableAppend(x, y, modes);
  }

  /** Fresh claims made from the ids a first run of claims left free stay
      fresh after that run. */
  lemma FreshCompose(a: seq<Claim>, b: seq<Claim>, l1: seq<string>, from: seq<string>)
    requires FreshFrom(a, from) && FreshFrom(b, l1)
    requires forall id :: id in l1 ==> id in from
    requires forall c :: c in a ==> c.id !in l1
    ensures FreshFrom(a + b, from)
  {
    var all := a + b;
    forall k | 0 <= k < |all| && all[k].origin.None?
      ensures all[k].id in from
      ensures forall j :: 0 <= j < k && all[j].origin.None? ==> all[j].id != all[k].id
    {
      if k >= |a| {
        assert all[k] == b[k - |a|];
        forall j | 0 <= j < k && all[j].origin.None? ensures all[j].id != all[k].id {
          if j < |a| {
            assert all[j] in a;
          } else {
            assert all[j] == b[j - |a|];
          }
        }
      } else {
        assert all[k] == a[k];
      }
    }
  }

  /** SelectedCompose over consecutive slices of the old replicas. */
  lemma SelectedAdvance(a: seq<Claim>, b: seq<Claim>, l1: seq<string>, l2: seq<string>, from: seq<string>,
                        olds: seq<Replica>, i: nat, j: nat, k: nat,
                        storages: map<string, Backend>, modes: map<string, int>)
    requires i <= j <= k <= |olds|
    requires Selected(a, l1, from, olds[i..j], storages, modes)
    requires Selected(b, l2, l1, olds[j..k], storages, modes)
    ensures Selected(a + b, l2, from, olds[i..k], storages, modes)
  {
    SelectedCompose(a, b, l1, l2, from, olds[i..j], olds[j..k], storages, modes);
    assert olds[i..j] + olds[j..k] == olds[i..k];
  }

  /** One more claim, after looking at the old replicas start..end. */
  lemma SelectedExtend(selector: seq<Claim>, c: Claim, idList: seq<string>, idList0: seq<string>,
                       olds: seq<Replica>, i: nat, start: nat, end: nat,
                       storages: map<string, Backend>, modes: map<string, int>)
    requires i <= start <= end <= |olds|
    requires Selected(selector, idList, idList0, olds[i..start], storages, modes)
    requires ClaimIn(c, storages, modes) && (c.origin.None? ==> c.id in idList)
    requires Reusable(olds[start..end], modes) == if c.origin.Some? then [(c.id, c.origin.value)] else []
    ensures Selected(selector + [c], Without(idList, c.id), idList0, olds[i..end], storages, modes)
  {
    SelectedOne(c, idList, olds[start..end], storages, modes);
    SelectedAdvance(selector, [c], idList, Without(idList, c.id), idList0, olds, i, start, end, storages, modes);
  }

  /** No claim, after looking at old replicas start..end none of which is reusable. */
  lemma SelectedSkip(selector: seq<Claim>, idList: seq<string>, idList0: seq<string>,
                     olds: seq<Replica>, i: nat, start: nat, end: nat,
                     storages: map<string, Backend>, modes: map<string, int>)
    requires i <= start <= end <= |olds|
    requires Selected(selector, idList, idList0, olds[i..start], storages, modes)
    requires Reusable(olds[start..end], modes) == []
    ensures Selected(selector, idList, idList0, olds[i..end], storages, modes)
  {
    SelectedNothing(idList, olds[start..end], storages, modes);
    SelectedAdvance(selector, [], idList, idList, idList0, olds, i, start, end, storages, modes);
    assert selector + [] == selector;
  }

  // ---------------------------------------------------------------------------
  // Fresh slots over the list `Find` gives as written

  /** Fresh slots of the selection as the code is written (fs/inode.ts:120-151)
      over a list that may hold ids that are not writable, as FindAsWritten's
      does: slot j takes the id at position picks[j] (any position for
      "random", the rotating one for "cycle", 0 for "all"); a writable id is
      claimed and leaves the list, any other is skipped and stays. Gives the
      ids claimed and the list left. */
  function SlotsAsWritten(idList: seq<string>, modes: map<string, int>, picks: seq<nat>)
    : (r: (seq<string>, seq<string>))
    ensures forall id :: id in r.0 ==> id in idList && WritableIn(modes, id)
    ensures forall id :: id in idList && !WritableIn(modes, id) ==> id in r.1
    ensures forall id :: id in r.1 ==> id in idList
    decreases |picks|
  {
    if picks == [] || idList == [] then ([], idList)
    else
      var id := idList[picks[0] % |idList|];
      if WritableIn(modes, id) then
        var next := SlotsAsWritten(Without(idList, id), modes, picks[1..]);
        ([id] + next.0, next.1)
      else
        SlotsAsWritten(idList, modes, picks[1..])
  }

  /** A list without a writable id: however the slots choose, nothing is
      claimed and the list is left as it was. The outer
      `while (idList.length && returnValue < maxStorage)` of fs/inode.ts:91
      then starts the same round again, forever. */
  lemma {:induction false} SlotsAsWrittenIdle(idList: seq<string>, modes: map<string, int>, picks: seq<nat>)
    requires forall id :: id in idList ==> !WritableIn(modes, id)
    ensures SlotsAsWritten(idList, modes, picks) == ([], idList)
    decreases |picks|
  {
    if picks != [] && idList != [] {
      SlotsAsWrittenIdle(idList, modes, picks[1..]);
    }
  }

  /** "all" placement always takes the head: a head id that is not writable
      is never claimed nor filtered out, so no number of slots claims
      anything, and the inner loop's condition `idList.length > 0` of
      fs/inode.ts:98 holds forever. */
  lemma {:induction false} AllSlotsStuck(idList: seq<string>, modes: map<string, int>, n: nat)
    requires idList != [] && !WritableIn(modes, idList[0])
    ensures SlotsAsWritten(idList, modes, seq(n, _ => 0)) == ([], idList)
    decreases n
  {
    if n > 0 {
      assert seq(n, _ => 0)[1..] == seq(n - 1, _ => 0);
      AllSlotsStuck(idList, modes, n - 1);
    }
  }

  /** The hang on backends {"rw": mode 7, "ro": mode 4} with two replicas
      wanted and "cycle" placement: the as-written list holds both ids; the
      first round claims "rw" and then picks "ro", which stays; every later
      round sees only "ro" and claims nothing. With the permission test
      the list is ["rw"] and the first round uses it up. */
  lemma FindAsWrittenHangsWriteBlock()
    ensures FindAsWritten(["rw", "ro"]) == ["rw", "ro"]
    ensures FindSpec(["rw", "ro"], map["rw" := 7, "ro" := 4], WriteStatus) == ["rw"]
    ensures SlotsAsWritten(["rw", "ro"], map["rw" := 7, "ro" := 4], [0, 0]) == (["rw"], ["ro"])
    ensures forall picks :: SlotsAsWritten(["ro"], map["rw" := 7, "ro" := 4], picks) == ([], ["ro"])
  {
    FindOnRwRo();
    SlotsOnRwRo();
  }

  /** Find on those backends, as written and with the permission test. */
  lemma FindOnRwRo()
    ensures FindAsWritten(["rw", "ro"]) == ["rw", "ro"]
    ensures FindSpec(["rw", "ro"], map["rw" := 7, "ro" := 4], WriteStatus) == ["rw"]
  {
    assert ["rw", "ro"][..1] == ["rw"] && ["rw"][..0] == [];
    assert FindSpec(["rw"], map["rw" := 7, "ro" := 4], WriteStatus) == ["rw"];
  }

  /** The "cycle" slots on those backends: the first round's two picks,
      then any later round. */
  lemma SlotsOnRwRo()
    ensures SlotsAsWritten(["rw", "ro"], map["rw" := 7, "ro" := 4], [0, 0]) == (["rw"], ["ro"])
    ensures forall picks :: SlotsAsWritten(["ro"], map["rw" := 7, "ro" := 4], picks) == ([], ["ro"])
  {
    var m := map["rw" := 7, "ro" := 4];
    assert WritableIn(m, "rw") && !WritableIn(m, "ro");
    forall picks: seq<nat> ensures SlotsAsWritten(["ro"], m, picks) == ([], ["ro"]) {
      SlotsAsWrittenIdle(["ro"], m, picks);
    }
    assert Without(["rw", "ro"], "rw") == ["ro"];
    assert [0, 0][1..] == [0];
    assert ["rw", "ro"][[0, 0][0] % 2] == "rw";
    var next := SlotsAsWritten(["ro"], m, [0]);
    assert SlotsAsWritten(["rw", "ro"], m, [0, 0]) == (["rw"] + next.0, next.1);
    assert next == ([], ["ro"]) && ["rw"] + [] == ["rw"];
  }


  // ---------------------------------------------------------------------------
  // Cleanup of old replicas

  /** The old replicas to delete after a write: those whose backend holds
      none of the new replicas. */
  function Superseded(olds: seq<Replica>, news: seq<Replica>): (r: seq<Replica>)
    ensures forall p :: p in r <==> p in olds && p.id !in Ids(news)
    decreases |olds|
  {
    if olds == [] then []
    else (if olds[0].id in Ids(news) then [] else [olds[0]]) + Superseded(olds[1..], news)
  }

  /** No new replica's backend is among those cleaned up. */
  lemma NotSuperseded(olds: seq<Replica>, news: seq<Replica>, rep: Replica)
    requires rep in news
    ensures rep.id !in Ids(Superseded(olds, news))
  {
    var k :| 0 <= k < |news| && news[k] == rep;
    assert Ids(news)[k] == rep.id;
    var gone := Superseded(olds, news);
    forall j | 0 <= j < |gone| ensures Ids(gone)[j] != rep.id {
      assert gone[j] in gone;
    }
  }

  /** The cleanup as written: the callback given to `.every` returns nothing,
      so `.every` stops after the first old replica. */
  function SupersededAsWritten(olds: seq<Replica>, news: seq<Replica>): (r: seq<Replica>)
    ensures |r| <= 1 && forall rep :: rep in r ==> rep in Superseded(olds, news)
  {
    if olds != [] && olds[0].id !in Ids(news) then [olds[0]] else []
  }

  /** The discrepancy: after moving from two replicas on A and B to one on A,
      the replica on B is never deleted. */
  lemma CleanupAsWrittenOrphansReplicas()
    ensures SupersededAsWritten([Replica("A", "a", "t"), Replica("B", "b", "t")], [Replica("A", "a2", "t")]) == []
    ensures Superseded([Replica("A", "a", "t"), Replica("B", "b", "t")], [Replica("A", "a2", "t")]) == [Replica("B", "b", "t")]
  {
    var news := [Replica("A", "a2", "t")];
    assert Ids(news) == ["A"];
    var olds := [Replica("A", "a", "t"), Replica("B", "b", "t")];
    assert olds[1..] == [Replica("B", "b", "t")];
    assert olds[1..][1..] == [];
  }

  /** With at most one old replica the two readings agree. */
  lemma CleanupAgreesOnSingleReplica(olds: seq<Replica>, news: seq<Replica>)
    requires |olds| <= 1
    ensures SupersededAsWritten(olds, news) == Superseded(olds, news)
  {
    if olds != [] {
      assert olds[1..] == [];
    }
  }

  // ---------------------------------------------------------------------------
  // What a backend holds and what reading a block gives

  /** A replica is in place: its backend is registered with the recorded
      type, and an object store returns the stored bytes for its reference. */
  predicate Stored(rep: Replica, enc: seq<byte>, views: map<string, Backend>) {
    rep.id in views && views[rep.id].kind == rep.kind
    && (!views[rep.id].isNull ==> views[rep.id].Read(rep.content) == Ok(enc))
  }

  /** A store only gained entries holding enc, or kept what it had. */
  predicate GrowsWith(s0: map<string, seq<byte>>, s1: map<string, seq<byte>>, enc: seq<byte>) {
    (forall ref :: ref in s0 ==> ref in s1)
    && forall ref :: ref in s1 ==> s1[ref] == enc || (ref in s0 && s1[ref] == s0[ref])
  }

  predicate StoresGrow(v0: map<string, Backend>, v1: map<string, Backend>, enc: seq<byte>) {
    v0.Keys == v1.Keys
    && forall id :: id in v0 ==>
         v1[id].kind == v0[id].kind && v1[id].isNull == v0[id].isNull && v1[id].mode == v0[id].mode
         && GrowsWith(v0[id].store, v1[id].store, enc)
  }

  /** A selection only looks at the kinds of the backends, which saving keeps. */
  lemma SelectedRebased(claims: seq<Claim>, idList: seq<string>, from: seq<string>, looked: seq<Replica>,
                        s0: map<string, Backend>, s1: map<string, Backend>, modes: map<string, int>,
                        enc: seq<byte>)
    requires StoresGrow(s0, s1, enc)
    ensures Selected(claims, idList, from, looked, s0, modes) <==> Selected(claims, idList, from, looked, s1, modes)
  {
  }

  /** Saving keeps every backend and its kind. */
  lemma KindKept(id: string, s0: map<string, Backend>, s1: map<string, Backend>, enc: seq<byte>)
    requires id in s0 && StoresGrow(s0, s1, enc)
    ensures id in s1 && s1[id].kind == s0[id].kind
  {
  }

  /** Saving the same bytes elsewhere never disturbs a replica already in place. */
  lemma StoredPreserved(rep: Replica, enc: seq<byte>, v0: map<string, Backend>, v1: map<string, Backend>)
    requires Stored(rep, enc, v0) && StoresGrow(v0, v1, enc)
    ensures Stored(rep, enc, v1)
  {
    if !v0[rep.id].isNull {
      assert rep.content in v0[rep.id].store;
    }
  }

  lemma StoresGrowTrans(v0: map<string, Backend>, v1: map<string, Backend>,
                       v2: map<string, Backend>, enc: seq<byte>)
    requires StoresGrow(v0, v1, enc) && StoresGrow(v1, v2, enc)
    ensures StoresGrow(v0, v2, enc)
  {
    forall id | id in v0 ensures GrowsWith(v0[id].store, v2[id].store, enc) {
      assert GrowsWith(v0[id].store, v1[id].store, enc) && GrowsWith(v1[id].store, v2[id].store, enc);
    }
  }

  /** What a series of saves of enc did to the backends: every replica it
      produced is in place on a claimed backend, the backends only gained
      objects holding enc, and the unclaimed ones are as they were. */
  predicate Wrote(reps: seq<Replica>, claims: seq<Claim>, enc: seq<byte>,
                  s0: map<string, Backend>, s1: map<string, Backend>) {
    && (forall rep :: rep in reps ==> Stored(rep, enc, s1) && rep.id in ClaimIds(claims))
    && StoresGrow(s0, s1, enc)
    && (forall id :: id in s0 && id !in ClaimIds(claims) ==> s1[id] == s0[id])
  }

  /** What one save did, as SaveTo states it, is a write of that claim. */
  lemma WroteSave(c: Claim, enc: seq<byte>, s0: map<string, Backend>, s1: map<string, Backend>,
                  res: Result<string, StorageError>, saved: seq<Replica>)
    requires c.id in s0 && s0[c.id].kind == c.kind
    requires c.id in s1 && s1 == s0[c.id := s1[c.id]] && s1[c.id] == s0[c.id].(store := s1[c.id].store)
    requires s1[c.id].isNull || res.Err? ==> s1 == s0
    requires !s1[c.id].isNull && res.Ok? ==>
               s1[c.id].store == s0[c.id].store[res.value := enc] && s1[c.id].Read(res.value) == Ok(enc)
    requires saved == if res.Ok? then [Replica(c.id, res.value, c.kind)] else []
    ensures Wrote(saved, [c], enc, s0, s1)
  {
    assert ClaimIds([c]) == [c.id];
    assert GrowsWith(s0[c.id].store, s1[c.id].store, enc);
  }

  lemma WroteNothing(enc: seq<byte>, s: map<string, Backend>)
    ensures Wrote([], [], enc, s, s)
  {
  }

  /** Saves in a row: the later ones keep what the earlier ones put in place. */
  lemma WroteCompose(r1: seq<Replica>, c1: seq<Claim>, r2: seq<Replica>, c2: seq<Claim>, enc: seq<byte>,
                     s0: map<string, Backend>, s1: map<string, Backend>, s2: map<string, Backend>)
    requires Wrote(r1, c1, enc, s0, s1) && Wrote(r2, c2, enc, s1, s2)
    ensures Wrote(r1 + r2, c1 + c2, enc, s0, s2)
  {
    assert ClaimIds(c1 + c2) == ClaimIds(c1) + ClaimIds(c2);
    StoresGrowTrans(s0, s1, s2, enc);
    forall rep | rep in r1 ensures Stored(rep, enc, s2) {
      StoredPreserved(rep, enc, s1, s2);
    }
  }

  /** One more claim k saved after the first k. */
  lemma WroteStep(saved: seq<Replica>, selector: seq<Claim>, k: nat, rep: seq<Replica>, enc: seq<byte>,
                  s0: map<string, Backend>, s1: map<string, Backend>, s2: map<string, Backend>)
    requires k < |selector|
    requires Wrote(saved, selector[..k], enc, s0, s1) && Wrote(rep, [selector[k]], enc, s1, s2)
    ensures Wrote(saved + rep, selector[..k + 1], enc, s0, s2)
  {
    WroteCompose(saved, selector[..k], rep, [selector[k]], enc, s0, s1, s2);
    assert selector[..k] + [selector[k]] == selector[..k + 1];
  }

  /** `ReadBlock`'s loop: the decrypted bytes of the first replica whose
      backend is registered with the recorded type, reads without error and
      whose checksum matches. */
  function ReadFrom(contents: seq<Replica>, c: Cryptor, crc: bv16, views: map<string, Backend>)
    : (r: Result<seq<byte>, BlockError>)
    ensures r.Ok? ==> Crc16(r.value) == crc
    ensures r.Err? ==> r.error == NotFound
    decreases |contents|
  {
    if contents == [] then Err(NotFound)
    else
      var rep := contents[0];
      if rep.id in views && views[rep.id].kind == rep.kind && views[rep.id].Read(rep.content).Ok?
         && Crc16(Decrypted(c, views[rep.id].Read(rep.content).value)) == crc
      then Ok(Decrypted(c, views[rep.id].Read(rep.content).value))
      else ReadFrom(contents[1..], c, crc, views)
  }

  /** `ReadBlock(index)` on the block found there. */
  function ReadSpec(slot: Option<Block>, cryptos: seq<Cryptor>, views: map<string, Backend>)
    : (r: Result<seq<byte>, BlockError>)
    ensures r.Ok? ==> slot.Some? && Crc16(r.value) == slot.value.crc
  {
    if slot.None? then Err(NotFound)
    else match GetCrypto(cryptos, slot.value.crypto)
      case None => Err(NotCryptor)
      case Some(c) => ReadFrom(slot.value.contents, c, slot.value.crc, views)
  }

  /** Replicas written by a cryptor are read back as the plaintext: from the
      first one when it lives on an object store, and from some replica as
      soon as any of them does. */
  lemma {:induction false} ReadAfterWrite(contents: seq<Replica>, c: Cryptor, input: seq<byte>,
                                          views: map<string, Backend>, k: nat)
    requires forall j :: 0 <= j < |contents| ==> Stored(contents[j], Encrypted(c, input), views)
    requires k < |contents| && contents[k].id in views && !views[contents[k].id].isNull
    ensures ReadFrom(contents, c, Crc16(input), views).Ok?
    ensures contents[0].id in views && !views[contents[0].id].isNull ==>
              ReadFrom(contents, c, Crc16(input), views) == Ok(input)
    decreases k
  {
    var rep := contents[0];
    assert Stored(rep, Encrypted(c, input), views);
    if !views[rep.id].isNull {
      DecryptEncrypt(c, input);
    } else {
      var rest := contents[1..];
      assert forall j :: 0 <= j < |rest| ==> rest[j] == contents[j + 1];
      ReadAfterWrite(rest, c, input, views, k - 1);
    }
  }

  /** A block written through the first cryptor reads back as its plaintext
      when its first replica lives on an object store. */
  lemma ReadAfterWriteBlock(b: Block, cryptos: seq<Cryptor>, input: seq<byte>, storages: map<string, Backend>)
    requires cryptos != [] && b.crypto == cryptos[0].id && b.crc == Crc16(input)
    requires forall rep :: rep in b.contents ==> Stored(rep, Encrypted(cryptos[0], input), storages)
    requires b.contents != [] && b.contents[0].id in storages && !storages[b.contents[0].id].isNull
    ensures ReadSpec(Some(b), cryptos, storages) == Ok(input)
  {
    assert GetCrypto(cryptos, cryptos[0].id) == Some(cryptos[0]);
    forall j | 0 <= j < |b.contents| ensures Stored(b.contents[j], Encrypted(cryptos[0], input), storages) {
      assert b.contents[j] in b.contents;
    }
    ReadAfterWrite(b.contents, cryptos[0], input, storages, 0);
  }

  /** What a successful WriteBlock leaves behind, on values: block b holds the
      checksum and cryptor id of the input, each of its replicas holds the
      encrypted input on a backend that was claimed, the claims are a
      selection over the writable backends and the old replicas looked at,
      every backend neither claimed nor cleaned up is as it was in s0, and
      reading b back gives the input whenever its first replica sits on a
      real backend. */
  ghost predicate Written(b: Block, input: seq<byte>, cryptos: seq<Cryptor>, claims: seq<Claim>,
                          left: seq<string>, looked: nat, olds: seq<Replica>,
                          order: seq<string>, modes: map<string, int>,
                          s0: map<string, Backend>, s1: map<string, Backend>) {
    && cryptos != []
    && b.crc == Crc16(input)
    && b.crypto == cryptos[0].id
    && (forall rep :: rep in b.contents ==> Stored(rep, Encrypted(cryptos[0], input), s1))
    && (forall rep :: rep in b.contents ==> rep.id in ClaimIds(claims))
    && looked <= |olds|
    && Selected(claims, left, FindSpec(order, modes, WriteStatus), olds[..looked], s1, modes)
    && (forall id :: id in s0 && id in s1 && id !in ClaimIds(claims) && id !in Ids(Superseded(olds, b.contents))
                     ==> s1[id] == s0[id])
    && (b.contents != [] && b.contents[0].id in s1 && !s1[b.contents[0].id].isNull ==>
          ReadSpec(Some(b), cryptos, s1) == Ok(input))
  }

  /** The saves (s0 to s1) followed by the clean-up (s1 to s2) of one write
      establish Written. */
  lemma CommitWritten(b: Block, input: seq<byte>, cryptos: seq<Cryptor>, claims: seq<Claim>,
                      left: seq<string>, looked: nat, olds: seq<Replica>,
                      order: seq<string>, modes: map<string, int>,
                      s0: map<string, Backend>, s1: map<string, Backend>, s2: map<string, Backend>)
    requires cryptos != [] && b.crc == Crc16(input) && b.crypto == cryptos[0].id
    requires Wrote(b.contents, claims, Encrypted(cryptos[0], input), s0, s1)
    requires looked <= |olds|
    requires Selected(claims, left, FindSpec(order, modes, WriteStatus), olds[..looked], s1, modes)
    requires Shrunk(s1, s2)
    requires forall id :: id in s1 && id !in Ids(Superseded(olds, b.contents)) ==> s2[id] == s1[id]
    ensures Written(b, input, cryptos, claims, left, looked, olds, order, modes, s0, s2)
  {
    var enc := Encrypted(cryptos[0], input);
    SelectedKept(claims, left, FindSpec(order, modes, WriteStatus), olds[..looked], s1, s2, modes);
    forall rep | rep in b.contents ensures Stored(rep, enc, s2) {
      NotSuperseded(olds, b.contents, rep);
    }
    if b.contents != [] && b.contents[0].id in s2 && !s2[b.contents[0].id].isNull {
      ReadAfterWriteBlock(b, cryptos, input, s2);
    }
  }

  /** The filter of `DeleteBlock(index, id)`: every replica on another backend, in order. */
  function KeepOthers(contents: seq<Replica>, id: string): (r: seq<Replica>)
    ensures |r| <= |contents|
    ensures forall p :: p in r <==> p in contents && p.id != id
    decreases |contents|
  {
    if contents == [] then []
    else (if contents[0].id == id then [] else [contents[0]]) + KeepOthers(contents[1..], id)
  }

  /** The backends are the same but for what they hold, and hold no more
      than before. */
  predicate Shrunk(s0: map<string, Backend>, s1: map<string, Backend>) {
    s0.Keys == s1.Keys
    && forall x :: x in s0 ==> s1[x] == s0[x].(store := s1[x].store) && s1[x].store.Keys <= s0[x].store.Keys
  }

  /** The replica's reference is no longer held by its backend (NullStorage
      holds nothing to delete; an unregistered backend is out of reach). */
  predicate Erased(rep: Replica, storages: map<string, Backend>) {
    rep.id in storages && !storages[rep.id].isNull ==> rep.content !in storages[rep.id].store
  }

  /** Every replica the id names has been erased; the empty id names all of them. */
  predicate Gone(contents: seq<Replica>, id: string, storages: map<string, Backend>) {
    forall rep :: rep in contents && (id == "" || rep.id == id) ==> Erased(rep, storages)
  }

  /** Deleting objects leaves a selection valid. */
  lemma SelectedKept(claims: seq<Claim>, idList: seq<string>, from: seq<string>, looked: seq<Replica>,
                     s0: map<string, Backend>, s1: map<string, Backend>, modes: map<string, int>)
    requires Selected(claims, idList, from, looked, s0, modes) && Shrunk(s0, s1)
    ensures Selected(claims, idList, from, looked, s1, modes)
  {
  }

  /** Only backend id may have changed. */
  predicate Untouched(s0: map<string, Backend>, s1: map<string, Backend>, id: string) {
    forall x :: x in s0 && x != id ==> x in s1 && s1[x] == s0[x]
  }

  /** A delete on backend id shrinks that backend only. */
  lemma DeletedOn(s0: map<string, Backend>, s1: map<string, Backend>, id: string)
    requires id in s0 && id in s1 && s1 == s0[id := s1[id]]
    requires s1[id] == s0[id].(store := s1[id].store) && s1[id].store.Keys <= s0[id].store.Keys
    ensures Shrunk(s0, s1) && Untouched(s0, s1, id)
  {
  }

  /** One replica of EraseOn's loop: deleted from backend id when it lives
      there, passed over otherwise. */
  lemma EraseStep(done: seq<Replica>, rep: Replica, id: string,
                  s0: map<string, Backend>, s1: map<string, Backend>, s2: map<string, Backend>)
    requires id != "" && Gone(done, id, s1) && Shrunk(s0, s1) && Untouched(s0, s1, id)
    requires rep.id != id || id !in s1 ==> s2 == s1
    requires rep.id == id && id in s1 ==>
               && id in s2 && s2 == s1[id := s2[id]]
               && s2[id] == s1[id].(store := s2[id].store) && s2[id].store.Keys <= s1[id].store.Keys
               && (!s2[id].isNull ==> s2[id].store == s1[id].store - {rep.content})
    ensures Gone(done + [rep], id, s2) && Shrunk(s0, s2) && Untouched(s0, s2, id)
  {
    if rep.id == id && id in s1 {
      DeletedOn(s1, s2, id);
      GoneStays(done, id, s0, s1, s2);
    }
    assert rep.id == id ==> Erased(rep, s2);
    assert forall r :: r in done + [rep] ==> r in done || r == rep;
  }

  lemma ShrunkTrans(s0: map<string, Backend>, s1: map<string, Backend>, s2: map<string, Backend>)
    requires Shrunk(s0, s1) && Shrunk(s1, s2)
    ensures Shrunk(s0, s2)
  {
  }

  /** One more delete on backend id keeps the earlier ones done and the
      other backends untouched. */
  lemma GoneStays(reps: seq<Replica>, id: string, s0: map<string, Backend>,
                  s1: map<string, Backend>, s2: map<string, Backend>)
    requires Gone(reps, id, s1) && Shrunk(s0, s1) && Untouched(s0, s1, id)
    requires Shrunk(s1, s2) && Untouched(s1, s2, id)
    ensures Gone(reps, id, s2) && Shrunk(s0, s2) && Untouched(s0, s2, id)
  {
    forall rep | rep in reps && (id == "" || rep.id == id) ensures Erased(rep, s2) {
      ErasedStays(rep, s1, s2);
    }
  }

  lemma ErasedStays(rep: Replica, s0: map<string, Backend>, s1: map<string, Backend>)
    requires Erased(rep, s0) && Shrunk(s0, s1)
    ensures Erased(rep, s1)
  {
  }

  /** Blocks emptied earlier stay emptied when the backends shrink further. */
  lemma GoneBlocksStay(olds: seq<Option<Block>>, i: nat, s1: map<string, Backend>, s2: map<string, Backend>)
    requires i <= |olds| && Shrunk(s1, s2)
    requires forall j :: 0 <= j < i ==> olds[j].Some?
    requires forall j :: 0 <= j < i ==> Gone(olds[j].value.contents, "", s1)
    ensures forall j :: 0 <= j < i ==> Gone(olds[j].value.contents, "", s2)
  {
    forall j, rep | 0 <= j < i && rep in olds[j].value.contents ensures Erased(rep, s2) {
      ErasedStays(rep, s1, s2);
    }
  }

  /** Removing the replicas of the first one's backend shortens the list. */
  lemma KeepOthersShrinks(contents: seq<Replica>)
    requires contents != []
    ensures |KeepOthers(contents, contents[0].id)| < |contents|
  {
  }

  // ---------------------------------------------------------------------------

  class BlockManager {
    var blocks: seq<Option<Block>>
    /** The rotating position of "cycle" placement. */
    var cycleIndex: nat
    const storageManager: StorageManager
    /** How many replicas each block should have. */
    const maxStorage: nat
    const mode: Placement
    /** `cryptoManager.cryptos`: the first one encrypts every write. */
    const cryptos: seq<Cryptor>

    ghost predicate Valid()
      reads storageManager
    {
      storageManager.Valid()
    }

    /** `new BlockManager(storageManager, maxStorage, mode, cryptoManager)`
        (the source's defaults are 1, "random" and a single NoneCrypto with id ""). */
    constructor(storageManager: StorageManager, maxStorage: nat, mode: Placement, cryptos: seq<Cryptor>)
      ensures this.storageManager == storageManager && this.maxStorage == maxStorage
      ensures this.mode == mode && this.cryptos == cryptos
      ensures blocks == [] && cycleIndex == 0
    {
      this.storageManager := storageManager;
      this.maxStorage := maxStorage;
      this.mode := mode;
      this.cryptos := cryptos;
      blocks := [];
      cycleIndex := 0;
    }

    /** The choice of a fresh backend for one slot (fs/inode.ts:123-136):
        any listed id for "random" (`Random.rangeInt(0, idList.length)`), the
        rotating position for "cycle", the head of the list for "all"; nothing
        when the list is empty. */
    method Pick(idList: seq<string>) returns (id: Option<string>)
      modifies this`cycleIndex
      ensures id.Some? <==> |idList| > 0
      ensures id.Some? ==> id.value in idList
      ensures mode == AllPlacement && |idList| > 0 ==> id == Some(idList[0])
      ensures mode == CyclePlacement && |idList| > 0 ==>
                id == Some(idList[if old(cycleIndex) < |idList| then old(cycleIndex) else 0])
      ensures mode == CyclePlacement ==>
                cycleIndex == (if old(cycleIndex) < |idList| then old(cycleIndex) else 0) + 1
      ensures mode != CyclePlacement ==> cycleIndex == old(cycleIndex)
    {
      id := None;
      match mode {
        case RandomPlacement =>
          if |idList| > 0 {
            var k :| 0 <= k < |idList|;
            id := Some(idList[k]);
          }
        case CyclePlacement =>
          if cycleIndex >= |idList| {
            cycleIndex := 0;
          }
          if cycleIndex < |idList| {
            id := Some(idList[cycleIndex]);
          }
          cycleIndex := cycleIndex + 1;
        case AllPlacement =>
          if |idList| > 0 {
            id := Some(idList[0]);
          }
      }
    }

    /** One pass of the inner `for` loop of WriteBlock (fs/inode.ts:98-152):
        each slot first tries the next old replica, then a fresh backend. */
    method Select(oldContents: seq<Replica>, idList0: seq<string>, originIndex0: nat, returnValue: nat)
      returns (selector: seq<Claim>, idList: seq<string>, originIndex: nat)
      requires Valid() && CandidatesIn(idList0, storageManager.Modes())
      requires originIndex0 <= |oldContents|
      requires returnValue < maxStorage
      modifies this`cycleIndex
      ensures originIndex0 <= originIndex <= |oldContents|
      ensures Selected(selector, idList, idList0, oldContents[originIndex0..originIndex],
                       storageManager.storages, storageManager.Modes())
      ensures |idList| + (|oldContents| - originIndex) + |selector|
              <= |idList0| + (|oldContents| - originIndex0)
      ensures |idList0| > 0 ==> |selector| > 0
      ensures mode != AllPlacement ==> returnValue + |selector| <= maxStorage
      ensures mode == AllPlacement ==> idList == []
      ensures mode != CyclePlacement ==> cycleIndex == old(cycleIndex)
    {
      selector, idList, originIndex := [], idList0, originIndex0;
      var i := returnValue;
      ghost var modes := storageManager.Modes();
      ghost var storages := storageManager.storages;
      SelectedNothing(idList0, oldContents[originIndex0..originIndex0], storages, modes);
      while i < maxStorage || (mode == AllPlacement && |idList| > 0)
        invariant originIndex0 <= originIndex <= |oldContents|
        invariant Selected(selector, idList, idList0, oldContents[originIndex0..originIndex], storages, modes)
        invariant |idList| + (|oldContents| - originIndex) + |selector|
                  <= |idList0| + (|oldContents| - originIndex0)
        invariant |selector| == i - returnValue
        invariant |selector| == 0 ==> idList == idList0
        invariant mode != AllPlacement ==> i <= maxStorage
        invariant mode != CyclePlacement ==> cycleIndex == old(cycleIndex)
        decreases |idList| + (|oldContents| - originIndex)
      {
        var c, next := SelectNext(oldContents, idList, originIndex, idList0, originIndex0, selector);
        originIndex := next;
        if c.None? {
          break;
        }
        selector := selector + [c.value];
        idList := Without(idList, c.value.id);
        i := i + 1;
      }
    }

    /** One slot of that loop (fs/inode.ts:99-151): the next old replica is
        reused when its backend is registered and writable; otherwise a
        fresh backend is picked from the ids still free. None when the list
        is empty. */
    method SelectNext(oldContents: seq<Replica>, idList: seq<string>, originIndex: nat,
                      ghost idList0: seq<string>, ghost originIndex0: nat, ghost selector: seq<Claim>)
      returns (c: Option<Claim>, next: nat)
      requires Valid() && originIndex0 <= originIndex <= |oldContents|
      requires Selected(selector, idList, idList0, oldContents[originIndex0..originIndex],
                        storageManager.storages, storageManager.Modes())
      modifies this`cycleIndex
      ensures originIndex <= next <= |oldContents|
      ensures idList != [] ==> c.Some?
      ensures c.None? ==> idList == []
      ensures c.Some? ==> Selected(selector + [c.value], Without(idList, c.value.id), idList0,
                                   oldContents[originIndex0..next], storageManager.storages, storageManager.Modes())
      ensures c.Some? ==> |Without(idList, c.value.id)| + (|oldContents| - next) < |idList| + (|oldContents| - originIndex)
      ensures c.None? ==> Selected(selector, idList, idList0, oldContents[originIndex0..next],
                                   storageManager.storages, storageManager.Modes())
      ensures mode != CyclePlacement ==> cycleIndex == old(cycleIndex)
    {
      ghost var modes := storageManager.Modes();
      ghost var storages := storageManager.storages;
      next := originIndex;
      if originIndex < |oldContents| {
        // overrideFirst is always true: the next old replica comes first
        var rep := oldContents[originIndex];
        next := originIndex + 1;
        assert oldContents[originIndex..next] == [rep];
        ReusableOne(rep, modes);
        c := ReuseClaim(rep);
        if c.Some? {
          SelectedExtend(selector, c.value, idList, idList0, oldContents, originIndex0, originIndex, next, storages, modes);
          return;
        }
      }
      assert Reusable(oldContents[originIndex..next], modes) == [] by {
        if originIndex == next {
          assert oldContents[originIndex..next] == [];
        }
      }
      c := FreshSlot(oldContents, idList, originIndex, next, idList0, originIndex0, selector);
    }

    /** The rest of a slot once no old replica is reused: a fresh backend
        when one is left, and nothing otherwise. */
    method FreshSlot(oldContents: seq<Replica>, idList: seq<string>, originIndex: nat, next: nat,
                     ghost idList0: seq<string>, ghost originIndex0: nat, ghost selector: seq<Claim>)
      returns (c: Option<Claim>)
      requires Valid() && originIndex0 <= originIndex <= next <= |oldContents|
      requires Selected(selector, idList, idList0, oldContents[originIndex0..originIndex],
                        storageManager.storages, storageManager.Modes())
      requires Reusable(oldContents[originIndex..next], storageManager.Modes()) == []
      modifies this`cycleIndex
      ensures c.None? <==> idList == []
      ensures c.Some? ==> c.value.id in idList
      ensures c.Some? ==> Selected(selector + [c.value], Without(idList, c.value.id), idList0,
                                   oldContents[originIndex0..next], storageManager.storages, storageManager.Modes())
      ensures c.None? ==> Selected(selector, idList, idList0, oldContents[originIndex0..next],
                                   storageManager.storages, storageManager.Modes())
      ensures mode != CyclePlacement ==> cycleIndex == old(cycleIndex)
    {
      ghost var modes := storageManager.Modes();
      ghost var storages := storageManager.storages;
      c := PickClaim(idList);
      if c.Some? {
        SelectedExtend(selector, c.value, idList, idList0, oldContents, originIndex0, originIndex, next, storages, modes);
      } else {
        SelectedSkip(selector, idList, idList0, oldContents, originIndex0, originIndex, next, storages, modes);
      }
    }

    /** The re-check of an old replica's backend (fs/inode.ts:101-118): a
        claim that rewrites the replica in place when its backend is
        registered and writable. */
    function ReuseClaim(rep: Replica): (c: Option<Claim>)
      requires Valid()
      reads storageManager
      ensures c.Some? <==> WritableIn(storageManager.Modes(), rep.id)
      ensures c.Some? ==> && c.value.id == rep.id && c.value.origin == Some(rep.content)
                          && ClaimIn(c.value, storageManager.storages, storageManager.Modes())
    {
      var st := storageManager.GetStorage(rep.id);
      if st.Some? && CanWrite(st.value.mode) then Some(Claim(rep.id, st.value.kind, Some(rep.content))) else None
    }

    /** A fresh backend for the slot (fs/inode.ts:120-150): Pick's choice,
        re-checked as registered and writable, which every listed id is.
        None exactly when no id is left. */
    method PickClaim(idList: seq<string>) returns (c: Option<Claim>)
      requires Valid() && CandidatesIn(idList, storageManager.Modes())
      modifies this`cycleIndex
      ensures c.None? <==> idList == []
      ensures c.Some? ==> && c.value.origin.None? && c.value.id in idList
                          && ClaimIn(c.value, storageManager.storages, storageManager.Modes())
      ensures mode != CyclePlacement ==> cycleIndex == old(cycleIndex)
    {
      var id := Pick(idList);
      if id.None? {
        return None;
      }
      var st := storageManager.GetStorage(id.value);
      c := Some(Claim(id.value, st.value.kind, None));
    }

    /** One task of the round (fs/inode.ts:154-187): the claimed backend
        saves the encrypted bytes, and the reference it returns becomes a
        replica; a failed save is caught and gives nothing. */
    method SaveClaim(c: Claim, enc: seq<byte>) returns (saved: seq<Replica>)
      requires Valid() && c.id in storageManager.storages && storageManager.storages[c.id].kind == c.kind
      modifies storageManager`storages
      ensures Valid()
      ensures storageManager.Modes() == old(storageManager.Modes())
      ensures |saved| <= 1 && forall rep :: rep in saved ==> rep.id == c.id && rep.kind == c.kind
      ensures Wrote(saved, [c], enc, old(storageManager.storages), storageManager.storages)
    {
      ghost var s0 := storageManager.storages;
      var res := storageManager.SaveTo(c.id, enc, c.origin);
      saved := if res.Ok? then [Replica(c.id, res.value, c.kind)] else [];
      WroteSave(c, enc, s0, storageManager.storages, res, saved);
    }

    /** The saves of one round (fs/inode.ts:153-188): the replicas of the
        successful saves, in claim order. */
    method SaveAll(selector: seq<Claim>, enc: seq<byte>) returns (saved: seq<Replica>)
      requires Valid()
      requires forall c :: c in selector ==>
                 c.id in storageManager.storages && storageManager.storages[c.id].kind == c.kind
      modifies storageManager`storages
      ensures Valid()
      ensures storageManager.Modes() == old(storageManager.Modes())
      ensures |saved| <= |selector|
      ensures Wrote(saved, selector, enc, old(storageManager.storages), storageManager.storages)
    {
      saved := [];
      ghost var v0 := storageManager.storages;
      ghost var m0 := storageManager.Modes();
      WroteNothing(enc, v0);
      for k := 0 to |selector|
        invariant Valid() && storageManager.Modes() == m0
        invariant |saved| <= k
        invariant Wrote(saved, selector[..k], enc, v0, storageManager.storages)
      {
        var c := selector[k];
        assert c in selector;
        ghost var before := storageManager.storages;
        KindKept(c.id, v0, before, enc);
        var rep := SaveClaim(c, enc);
        WroteStep(saved, selector, k, rep, enc, v0, before, storageManager.storages);
        saved := saved + rep;
      }
      assert selector[..|selector|] == selector;
    }

    /** The deletion of superseded replicas (fs/inode.ts:204-212): each is
        deleted from its backend when that is still registered; failures are
        ignored. */
    method DeleteAll(reps: seq<Replica>)
      requires Valid()
      modifies storageManager`storages
      ensures Valid()
      ensures storageManager.Modes() == old(storageManager.Modes())
      ensures Shrunk(old(storageManager.storages), storageManager.storages)
      ensures forall id :: id in old(storageManager.storages) && id !in Ids(reps) ==>
                storageManager.storages[id] == old(storageManager.storages)[id]
    {
      ghost var v0 := storageManager.storages;
      ghost var m0 := storageManager.Modes();
      ghost var views := v0;
      for k := 0 to |reps|
        invariant Valid() && views == storageManager.storages && storageManager.Modes() == m0
        invariant Shrunk(v0, views)
        invariant forall id :: id in v0 && id !in Ids(reps[..k]) ==> views[id] == v0[id]
      {
        var p := reps[k];
        assert Ids(reps[..k + 1]) == Ids(reps[..k]) + [p.id];
        var st := storageManager.GetStorage(p.id);
        if st.Some? {
          var _ := storageManager.DeleteFrom(p.id, p.content);
          views := storageManager.storages;
        }
      }
      assert reps[..|reps|] == reps;
    }

    /** The outer `while` loop of WriteBlock (fs/inode.ts:91-189): rounds of
        selection and saving until the replica count is reached or no
        candidate is left. */
    method Replicate(enc: seq<byte>, oldContents: seq<Replica>, candidates: seq<string>)
      returns (newBlocks: seq<Replica>, ghost claims: seq<Claim>, ghost looked: nat, ghost left: seq<string>)
      requires Valid() && CandidatesIn(candidates, storageManager.Modes())
      modifies this`cycleIndex, storageManager`storages
      ensures Valid()
      ensures storageManager.Modes() == old(storageManager.Modes())
      ensures Wrote(newBlocks, claims, enc, old(storageManager.storages), storageManager.storages)
      ensures mode != AllPlacement ==> |newBlocks| <= maxStorage
      ensures looked <= |oldContents|
      ensures Selected(claims, left, candidates, oldContents[..looked], storageManager.storages, storageManager.Modes())
      ensures mode == AllPlacement && maxStorage > 0 ==> left == []
      ensures mode != CyclePlacement ==> cycleIndex == old(cycleIndex)
    {
      var returnValue: nat := 0;
      newBlocks, claims := [], [];
      var idList := candidates;
      var originIndex: nat := 0;
      ghost var modes := storageManager.Modes();
      ghost var storages := storageManager.storages;
      ghost var v0 := storageManager.storages;
      SelectedNothing(candidates, oldContents[..0], storages, modes);
      WroteNothing(enc, v0);
      while |idList| > 0 && returnValue < maxStorage
        invariant Valid() && storageManager.Modes() == modes
        invariant originIndex <= |oldContents|
        invariant Selected(claims, idList, candidates, oldContents[..originIndex], storages, modes)
        invariant |newBlocks| == returnValue
        invariant mode != AllPlacement ==> returnValue <= maxStorage
        invariant mode == AllPlacement && idList != [] ==> returnValue == 0
        invariant Wrote(newBlocks, claims, enc, v0, storageManager.storages)
        invariant mode != CyclePlacement ==> cycleIndex == old(cycleIndex)
        decreases |idList| + (|oldContents| - originIndex)
      {
        var selector, idList', originIndex' := Select(oldContents, idList, originIndex, returnValue);
        ghost var before := storageManager.storages;
        SelectedRebased(selector, idList', idList, oldContents[originIndex..originIndex'], storages, before, modes, enc);
        var saved := SaveAll(selector, enc);
        SelectedAdvance(claims, selector, idList, idList', candidates, oldContents, 0, originIndex, originIndex',
                        storages, modes);
        WroteCompose(newBlocks, claims, saved, selector, enc, v0, before, storageManager.storages);
        claims := claims + selector;
        newBlocks := newBlocks + saved;
        returnValue := returnValue + |saved|;
        idList := idList';
        originIndex := originIndex';
      }
      looked, left := originIndex, idList;
      SelectedRebased(claims, left, candidates, oldContents[..looked], storages, storageManager.storages, modes, enc);
    }

    /** The end of WriteBlock (fs/inode.ts:190-213): the block takes its new
        replicas, then the superseded old replicas are deleted. */
    method Commit(index: nat, b: Block, olds: seq<Replica>)
      requires Valid()
      modifies this`blocks, storageManager`storages
      ensures Valid()
      ensures blocks == Put(old(blocks), index, b)
      ensures storageManager.Modes() == old(storageManager.Modes())
      ensures Shrunk(old(storageManager.storages), storageManager.storages)
      ensures forall id :: id in old(storageManager.storages) && id !in Ids(Superseded(olds, b.contents)) ==>
                storageManager.storages[id] == old(storageManager.storages)[id]
    {
      var waitRemove := Superseded(olds, b.contents);
      blocks := Put(blocks, index, b);
      DeleteAll(waitRemove);
    }

    /** `WriteBlock(index, input)` (fs/inode.ts:69-216). */
    method WriteBlock(index: nat, input: seq<byte>)
      returns (r: Result<nat, BlockError>, ghost claims: seq<Claim>, ghost looked: nat, ghost left: seq<string>)
      requires Valid()
      modifies this`blocks, this`cycleIndex, storageManager`storages
      ensures Valid()
      ensures storageManager.Modes() == old(storageManager.Modes())
      ensures cryptos == [] ==> r == Err(NoCryptor) && blocks == old(blocks)
                                && storageManager.storages == old(storageManager.storages)
      ensures cryptos != [] ==>
        && r.Ok? && index < |blocks| && blocks[index].Some?
        && blocks == Put(old(blocks), index, blocks[index].value)
        && r.value == |blocks[index].value.contents|
        && (mode != AllPlacement ==> r.value <= maxStorage)
        && (mode == AllPlacement && maxStorage > 0 ==> left == [])
        && Written(blocks[index].value, input, cryptos, claims, left, looked, OldContents(old(blocks), index),
                   storageManager.order, storageManager.Modes(), old(storageManager.storages), storageManager.storages)
      ensures mode != CyclePlacement ==> cycleIndex == old(cycleIndex)
    {
      claims, looked, left := [], 0, [];
      if cryptos == [] {
        r := Err(NoCryptor);
        return;
      }
      var crc := Crc16(input);
      var crypto := cryptos[0];
      var enc := Encrypt(crypto, input);
      var idList := storageManager.Find(WriteStatus);
      ghost var order, modes := storageManager.order, storageManager.Modes();
      var oldContents := OldContents(blocks, index);
      ghost var s0 := storageManager.storages;
      var newBlocks;
      newBlocks, claims, looked, left := Replicate(enc, oldContents, idList);
      var b := Block(crc, newBlocks, crypto.id);
      ghost var s1 := storageManager.storages;
      Commit(index, b, oldContents);
      assert blocks[index] == Some(b);
      CommitWritten(b, input, cryptos, claims, left, looked, oldContents, order, modes, s0, s1, storageManager.storages);
      r := Ok(|newBlocks|);
    }

    /** `AppendBlock(input)`: a write at the first index past the end. */
    method AppendBlock(input: seq<byte>) returns (r: Result<nat, BlockError>)
      requires Valid()
      modifies this`blocks, this`cycleIndex, storageManager`storages
      ensures Valid()
      ensures r.Ok? ==> |blocks| == |old(blocks)| + 1 && blocks[..|old(blocks)|] == old(blocks)
      ensures r.Ok? ==> blocks[|old(blocks)|].Some? && blocks[|old(blocks)|].value.crc == Crc16(input)
      ensures r.Err? ==> blocks == old(blocks)
    {
      ghost var claims, looked, left;
      r, claims, looked, left := WriteBlock(|blocks|, input);
    }

    /** `ReadBlock(index)` (fs/inode.ts:221-254). */
    method ReadBlock(index: nat) returns (r: Result<seq<byte>, BlockError>)
      requires Valid()
      ensures r == ReadSpec(if index < |blocks| then blocks[index] else None, cryptos, storageManager.storages)
      ensures r.Ok? ==> Crc16(r.value) == blocks[index].value.crc
    {
      if index >= |blocks| || blocks[index].None? {
        return Err(NotFound);
      }
      var b := blocks[index].value;
      var found := GetCrypto(cryptos, b.crypto);
      if found.None? {
        return Err(NotCryptor);
      }
      var c := found.value;
      ghost var views := storageManager.storages;
      for i := 0 to |b.contents|
        invariant ReadFrom(b.contents, c, b.crc, views) == ReadFrom(b.contents[i..], c, b.crc, views)
      {
        var rep := b.contents[i];
        assert b.contents[i..][1..] == b.contents[i + 1..];
        var st := storageManager.GetStorage(rep.id);
        if st.Some? && st.value.kind == rep.kind {
          var data := st.value.Read(rep.content);
          if data.Ok? {
            var plain := Decrypt(c, data.value);
            if Crc16(plain) == b.crc {
              return Ok(plain);
            }
          }
        }
      }
      r := Err(NotFound);
    }

    /** The loop of the `else` branch of `DeleteBlock(index, id)`
        (fs/inode.ts:268-272): deletes, in order, every replica that lives on
        backend id; a failed delete stops it. */
    method EraseOn(contents: seq<Replica>, id: string) returns (ok: bool)
      requires Valid() && id != ""
      modifies storageManager`storages
      ensures Valid()
      ensures Shrunk(old(storageManager.storages), storageManager.storages)
      ensures Untouched(old(storageManager.storages), storageManager.storages, id)
      ensures ok ==> Gone(contents, id, storageManager.storages)
    {
      ghost var s0 := storageManager.storages;
      for i := 0 to |contents|
        invariant Valid()
        invariant Shrunk(s0, storageManager.storages) && Untouched(s0, storageManager.storages, id)
        invariant Gone(contents[..i], id, storageManager.storages)
      {
        ghost var before := storageManager.storages;
        if contents[i].id == id {
          var st := storageManager.GetStorage(id);
          if st.Some? {
            var d := storageManager.DeleteFrom(id, contents[i].content);
            if d.Err? {
              return false;
            }
          }
        }
        EraseStep(contents[..i], contents[i], id, s0, before, storageManager.storages);
        assert contents[..i + 1] == contents[..i] + [contents[i]];
      }
      assert contents[..|contents|] == contents;
      return true;
    }

    /** The `else` branch of `DeleteBlock(index, id)` (fs/inode.ts:267-274):
        the replicas on backend id are deleted, then dropped from the list.
        A failed delete throws before the list is changed. */
    method DeleteOn(index: nat, id: string) returns (r: Result<(), BlockError>)
      requires Valid() && id != ""
      requires index < |blocks| && blocks[index].Some?
      modifies this`blocks, storageManager`storages
      ensures Valid()
      ensures r.Ok? || r == Err(BlockError.DeleteFailed)
      ensures r.Ok? ==> blocks == old(blocks)[index := Some(old(blocks)[index].value.(
                          contents := KeepOthers(old(blocks)[index].value.contents, id)))]
      ensures r.Err? ==> blocks == old(blocks)
      ensures Shrunk(old(storageManager.storages), storageManager.storages)
      ensures Untouched(old(storageManager.storages), storageManager.storages, id)
      ensures r.Ok? ==> Gone(old(blocks)[index].value.contents, id, storageManager.storages)
    {
      var b := blocks[index].value;
      var ok := EraseOn(b.contents, id);
      if !ok {
        return Err(BlockError.DeleteFailed);
      }
      blocks := blocks[index := Some(b.(contents := KeepOthers(b.contents, id)))];
      r := Ok(());
    }

    /** `DeleteBlock(index, id)` (fs/inode.ts:260-275), the empty id standing
        for an absent one: with an id, the replicas on that backend go (see
        DeleteOn); without, the replicas of the backend of the first replica go,
        until the list is empty. */
    method DeleteBlock(index: nat, id: string) returns (r: Result<(), BlockError>)
      requires Valid()
      modifies this`blocks, storageManager`storages
      ensures Valid()
      ensures |blocks| == |old(blocks)|
      ensures forall j :: 0 <= j < |blocks| && j != index ==> blocks[j] == old(blocks)[j]
      ensures r == Err(NoBlock) <==> index >= |old(blocks)| || old(blocks)[index].None?
      ensures r == Err(NoBlock) ==> blocks == old(blocks) && storageManager.storages == old(storageManager.storages)
      ensures index < |blocks| && old(blocks)[index].Some? ==>
                blocks[index].Some?
                && blocks[index].value.crc == old(blocks)[index].value.crc
                && blocks[index].value.crypto == old(blocks)[index].value.crypto
      ensures r.Ok? && id != "" ==>
                blocks[index].value.contents == KeepOthers(old(blocks)[index].value.contents, id)
      ensures r.Ok? && id == "" ==> blocks[index].value.contents == []
      ensures r.Err? && id != "" ==> blocks == old(blocks)
      ensures Shrunk(old(storageManager.storages), storageManager.storages)
      ensures id != "" ==> Untouched(old(storageManager.storages), storageManager.storages, id)
      ensures r.Ok? ==> Gone(old(blocks)[index].value.contents, id, storageManager.storages)
    {
      if index >= |blocks| || blocks[index].None? {
        return Err(NoBlock);
      }
      if id != "" {
        r := DeleteOn(index, id);
        return;
      }
      ghost var olds := blocks[index].value.contents;
      ghost var s0 := storageManager.storages;
      while |blocks[index].value.contents| > 0
        invariant Valid()
        invariant |blocks| == |old(blocks)|
        invariant forall j :: 0 <= j < |blocks| && j != index ==> blocks[j] == old(blocks)[j]
        invariant blocks[index].Some?
        invariant blocks[index].value.crc == old(blocks)[index].value.crc
        invariant blocks[index].value.crypto == old(blocks)[index].value.crypto
        invariant Shrunk(s0, storageManager.storages)
        invariant forall rep :: rep in olds ==>
                    rep in blocks[index].value.contents || Erased(rep, storageManager.storages)
        decreases |blocks[index].value.contents|
      {
        var contents := blocks[index].value.contents;
        var first := contents[0].id;
        if first == "" {
          // DeleteBlock(index, "") again: endless recursion
          return Err(CallStack);
        }
        KeepOthersShrinks(contents);
        ghost var before := storageManager.storages;
        r := DeleteOn(index, first);
        if r.Err? {
          return;
        }
        ShrunkTrans(s0, before, storageManager.storages);
        forall rep | rep in olds && rep !in blocks[index].value.contents
          ensures Erased(rep, storageManager.storages)
        {
          if rep in contents {
            assert rep.id == first;
          } else {
            ErasedStays(rep, before, storageManager.storages);
          }
        }
      }
      return Ok(());
    }

    /** `Free()` (fs/inode.ts:280-284): empties every block in index order;
        a hole or a failed delete stops it. */
    method Free() returns (r: Result<(), BlockError>)
      requires Valid()
      modifies this`blocks, storageManager`storages
      ensures Valid()
      ensures |blocks| == |old(blocks)|
      ensures r.Ok? ==> forall j :: 0 <= j < |blocks| ==>
                old(blocks)[j].Some? && blocks[j].Some? && blocks[j].value.contents == []
                && blocks[j].value.crc == old(blocks)[j].value.crc
                && blocks[j].value.crypto == old(blocks)[j].value.crypto
      ensures r.Ok? ==> forall j :: 0 <= j < |old(blocks)| ==>
                Gone(old(blocks)[j].value.contents, "", storageManager.storages)
      ensures Shrunk(old(storageManager.storages), storageManager.storages)
      ensures r == Err(NoBlock) ==> exists j :: 0 <= j < |old(blocks)| && old(blocks)[j].None?
    {
      ghost var s0 := storageManager.storages;
      for i := 0 to |blocks|
        invariant Valid()
        invariant |blocks| == |old(blocks)|
        invariant forall j :: 0 <= j < i ==>
                    old(blocks)[j].Some? && blocks[j].Some? && blocks[j].value.contents == []
                    && blocks[j].value.crc == old(blocks)[j].value.crc
                    && blocks[j].value.crypto == old(blocks)[j].value.crypto
        invariant forall j :: i <= j < |blocks| ==> blocks[j] == old(blocks)[j]
        invariant Shrunk(s0, storageManager.storages)
        invariant forall j :: 0 <= j < i ==> Gone(old(blocks)[j].value.contents, "", storageManager.storages)
      {
        ghost var before := storageManager.storages;
        r := DeleteBlock(i, "");
        ShrunkTrans(s0, before, storageManager.storages);
        if r.Err? {
          return;
        }
        GoneBlocksStay(old(blocks), i, before, storageManager.storages);
      }
      r := Ok(());
    }
  }


}
