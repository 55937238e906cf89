/** The inode tree, `INodeManager` (fs/inode.ts:462-615): a dictionary from
    path to inode. Directories have no entry list of their own: the children
    of a path are the keys that extend it by one segment.

    The dictionary is a map plus the order of its keys (`Object.keys` order:
    insertion order, a reassigned key keeps its place, a deleted one leaves).
    Property and lock managers are left out. `onChanged` queues a save of
    the whole dictionary; the model keeps the queue of events. Freeing a
    file's blocks is recorded by the inode id whose `BlockManager.Free` is
    called. */
module INodeTree {
  import opened Wrappers
  import opened Nodes
  import opened Savers
  import opened PathUtil
  import Storage

  datatype INodeError =
    | NotFound
    | AlreadyExists
    | TooDeep     // moveINode recursed deeper than the fuel it was given
    | FreeFailed  // blockManager.Free() threw while a file was removed

  datatype EventKind = Created | Changed | Deleted

  /** One `onChanged(event, path, inode)` call: a save request for the saver. */
  datatype Event = Event(kind: EventKind, path: string, inode: INode)

  /** The `base` of `getChildren`: the path with one trailing '/'. */
  function Base(path: string): (b: string)
    ensures StartsWith(b, path) && EndsWith(b, "/") && |path| <= |b| <= |path| + 1
  {
    if EndsWith(path, "/") then path else path + "/"
  }

  /** `/^[^\/]+(\/){0,1}$/`: a non-empty segment without '/', optionally
      followed by one '/'. */
  predicate IsEntryName(rest: string) {
    && |rest| >= 1
    && rest[0] != '/'
    && forall i :: 0 <= i < |rest| - 1 ==> rest[i] != '/'
  }

  /** a is a prefix of b. */
  predicate PrefixOf(a: string, b: string)
    decreases |a|
  {
    |a| <= |b| && (a == [] || (a[0] == b[0] && PrefixOf(a[1..], b[1..])))
  }

  lemma {:induction false} PrefixOfAppend(a: string, s: string)
    ensures PrefixOf(a, a + s)
    decreases |a|
  {
    if a != [] {
      assert (a + s)[1..] == a[1..] + s;
      PrefixOfAppend(a[1..], s);
    }
  }

  lemma {:induction false} PrefixTrans(a: string, b: string, c: string)
    requires PrefixOf(a, b) && PrefixOf(b, c)
    ensures PrefixOf(a, c)
    decreases |a|
  {
    if a != [] {
      PrefixTrans(a[1..], b[1..], c[1..]);
    }
  }

  lemma {:induction false} PrefixOfSlice(a: string, b: string)
    ensures PrefixOf(a, b) <==> StartsWith(b, a)
    decreases |a|
  {
    if a != [] && |a| <= |b| {
      PrefixOfSlice(a[1..], b[1..]);
      assert b[1..][..|a| - 1] == b[..|a|][1..];
      if StartsWith(b, a) {
        assert a[1..] == b[..|a|][1..];
      } else if a[0] == b[0] {
        assert b[..|a|] == [b[0]] + b[..|a|][1..];
        assert a == [a[0]] + a[1..];
      }
    }
  }

  /** The filter of `getChildren` (fs/inode.ts:523): the key starts with
      base and what follows is one segment. `p.replace(base, "")` removes
      the first occurrence of base, which for a key starting with base is
      its prefix. */
  predicate IsChild(p: string, path: string) {
    && p != Base(path)
    && PrefixOf(Base(path), p)
    && IsEntryName(p[|Base(path)|..])
  }

  /** p lies inside the subtree of path: it starts with path's slash-terminated form. */
  predicate Below(p: string, path: string) {
    PrefixOf(Base(path), p)
  }

  /** A child is below its parent and strictly longer. */
  lemma ChildBelow(c: string, path: string)
    requires IsChild(c, path)
    ensures Below(c, path) && |c| > |path|
  {
  }

  /** What lies below a child lies below the parent. */
  lemma BelowTrans(p: string, c: string, path: string)
    requires Below(c, path) && Below(p, c)
    ensures Below(p, path)
  {
    PrefixOfAppend(c, Base(c)[|c|..]);
    assert c + Base(c)[|c|..] == Base(c);
    PrefixTrans(c, Base(c), p);
    PrefixTrans(Base(path), c, p);
  }

  /** A child has the form base + name, where name is one segment. */
  lemma ChildShape(c: string, path: string)
    requires IsChild(c, path)
    ensures StartsWith(c, Base(path))
    ensures forall i :: |Base(path)| <= i < |c| - 1 ==> c[i] != '/'
  {
    PrefixOfSlice(Base(path), c);
    var b := Base(path);
    var rest := c[|b|..];
    forall i | |b| <= i < |c| - 1 ensures c[i] != '/' {
      assert c[i] == rest[i - |b|];
    }
  }

  /** The keys among which getChildren filters, in order. */
  function ChildrenIn(keys: seq<string>, path: string): (r: seq<string>)
    ensures forall c :: c in r <==> c in keys && IsChild(c, path)
    decreases |keys|
  {
    if keys == [] then []
    else
      assert keys == [keys[0]] + keys[1..];
      var rest := ChildrenIn(keys[1..], path);
      if IsChild(keys[0], path) then [keys[0]] + rest else rest
  }

  /** Filtering keys without repetitions repeats none. */
  lemma {:induction false} ChildrenInDistinct(keys: seq<string>, path: string)
    requires Storage.Distinct(keys)
    ensures Storage.Distinct(ChildrenIn(keys, path))
    decreases |keys|
  {
    if keys != [] {
      assert Storage.Distinct(keys[1..]) by {
        forall i, j | 0 <= i < j < |keys[1..]| ensures keys[1..][i] != keys[1..][j] {
          assert keys[1..][i] == keys[i + 1] && keys[1..][j] == keys[j + 1];
        }
      }
      ChildrenInDistinct(keys[1..], path);
      assert keys[0] !in keys[1..] by {
        forall j | 0 <= j < |keys[1..]| ensures keys[1..][j] != keys[0] {
          assert keys[1..][j] == keys[j + 1];
        }
      }
    }
  }

  /** The keys of m at least n characters long. */
  function Longer(m: map<string, INode>, n: int): set<string> {
    set p | p in m && |p| >= n
  }

  /** Removing keys and going down to a longer path shrinks the keys still to visit. */
  lemma LongerShrinks(m0: map<string, INode>, m1: map<string, INode>, path: string, c: string)
    requires path in m0 && m1.Keys <= m0.Keys && |c| > |path|
    ensures Longer(m1, |c|) < Longer(m0, |path|)
  {
    assert path in Longer(m0, |path|) && path !in Longer(m1, |c|);
  }

  /** Only path and keys below it left m0, and nothing else changed. */
  predicate Shrunk(m0: map<string, INode>, m1: map<string, INode>, path: string) {
    && (forall p :: p in m1 ==> p in m0 && m1[p] == m0[p])
    && (forall p :: p in m0 && p != path && !Below(p, path) ==> p in m1)
  }

  lemma ShrunkTrans(m0: map<string, INode>, m1: map<string, INode>, m2: map<string, INode>,
                    path: string, c: string)
    requires Shrunk(m0, m1, path) && Shrunk(m1, m2, c) && Below(c, path)
    ensures Shrunk(m0, m2, path)
  {
    forall p | p in m0 && p != path && !Below(p, path) ensures p in m2 {
      if Below(p, c) {
        BelowTrans(p, c, path);
      }
    }
  }

  /** No key of xs is bound in m. */
  predicate NoneIn(xs: seq<string>, m: map<string, INode>) {
    forall c :: c in xs ==> c !in m
  }

  lemma NoneInStep(m1: map<string, INode>, m2: map<string, INode>, xs: seq<string>, k: nat, c: string)
    requires k < |xs| && xs[k] == c && NoneIn(xs[..k], m1) && Shrunk(m1, m2, c) && c !in m2
    ensures NoneIn(xs[..k + 1], m2)
  {
    assert xs[..k + 1] == xs[..k] + [c];
  }

  lemma ShrunkUnbind(m0: map<string, INode>, m1: map<string, INode>, path: string)
    requires Shrunk(m0, m1, path)
    ensures Shrunk(m0, m1 - {path}, path)
  {
  }

  /** Every key other than from, outside from's subtree, and (when
      overwriting) other than to, is still bound to the same inode. */
  predicate Moved(m0: map<string, INode>, m1: map<string, INode>, from: string, to: string, overwrite: bool) {
    forall p :: p in m0 && p != from && !Below(p, from) && !(overwrite && p == to) ==>
      p in m1 && m1[p] == m0[p]
  }

  /** Unbinding from and binding to keeps what the children's moves kept. */
  lemma MovedRebind(m0: map<string, INode>, m1: map<string, INode>, from: string, to: string,
                    overwrite: bool, node: INode)
    requires Moved(m0, m1, from, to, false) && (overwrite || to !in m0)
    ensures Moved(m0, (m1 - {from})[to := node], from, to, overwrite)
  {
  }

  lemma MovedTrans(m0: map<string, INode>, m1: map<string, INode>, m2: map<string, INode>,
                   from: string, to: string, c: string, to': string)
    requires Moved(m0, m1, from, to, false) && Moved(m1, m2, c, to', false) && Below(c, from)
    ensures Moved(m0, m2, from, to, false)
  {
    forall p | p in m0 && p != from && !Below(p, from) ensures p in m2 && m2[p] == m0[p] {
      if Below(p, c) {
        BelowTrans(p, c, from);
      }
    }
  }

  // ---------------------------------------------------------------------------
  // Where moveINode sends a directory's descendants

  /** Two prefixes of one string are prefixes of each other, one way or the other. */
  lemma {:induction false} PrefixComparable(a: string, b: string, s: string)
    ensures PrefixOf(a, s) && PrefixOf(b, s) ==> PrefixOf(a, b) || PrefixOf(b, a)
    decreases |a|
  {
    if a != [] && b != [] && s != [] {
      PrefixComparable(a[1..], b[1..], s[1..]);
    }
  }

  lemma PrefixChain(a: string, b: string, c: string)
    ensures PrefixOf(a, b) && PrefixOf(b, c) ==> PrefixOf(a, c)
  {
    if PrefixOf(a, b) && PrefixOf(b, c) {
      PrefixTrans(a, b, c);
    }
  }

  lemma PrefixRefl(a: string)
    ensures PrefixOf(a, a)
  {
    PrefixOfAppend(a, "");
    assert a + "" == a;
  }

  lemma PrefixBase(p: string)
    ensures PrefixOf(p, Base(p))
  {
    if EndsWith(p, "/") {
      PrefixRefl(p);
    } else {
      PrefixOfAppend(p, "/");
    }
  }

  /** Whatever lies below a path is at least as long as it. */
  lemma UnderLength(t: string, to: string)
    ensures Under(t, to) ==> |t| >= |to| && (to != "" ==> t != "")
  {
  }

  /** p is path itself or lies in its subtree. */
  predicate Under(p: string, path: string) {
    p == path || Below(p, path)
  }

  lemma UnderTrans(p: string, q: string, path: string)
    requires Under(p, q) && Under(q, path)
    ensures Under(p, path)
  {
    if p != q && q != path {
      BelowTrans(p, q, path);
    }
  }

  /** Below a path that does not end with '/': the path, then '/' or the end. */
  lemma UnderShape(p: string, c: string)
    requires !EndsWith(c, "/")
    ensures Under(p, c) <==> StartsWith(p, c) && (|p| == |c| || p[|c|] == '/')
  {
    assert Base(c) == c + "/";
    PrefixOfSlice(Base(c), p);
    if StartsWith(p, c) && |p| > |c| && p[|c|] == '/' {
      assert p[..|c| + 1] == p[..|c|] + [p[|c|]];
    }
    if Below(p, c) {
      assert p[..|c|] == p[..|c| + 1][..|c|];
      assert p[|c|] == p[..|c| + 1][|c|];
    }
    if StartsWith(p, c) && |p| == |c| {
      assert p == p[..|c|];
    }
  }

  /** The characters of a child after its parent's base hold no '/' when
      the child does not end with one. */
  lemma ChildSegment(c: string, path: string, i: int)
    requires IsChild(c, path) && !EndsWith(c, "/")
    requires |Base(path)| <= i < |c|
    ensures c[i] != '/'
  {
    ChildShape(c, path);
    if i == |c| - 1 {
      assert c[|c| - 1..] == [c[i]];
    }
  }

  /** Two different children of one directory, neither ending with '/',
      have disjoint subtrees. */
  lemma SiblingsApart(path: string, c1: string, c2: string, p: string)
    requires IsChild(c1, path) && IsChild(c2, path) && c1 != c2
    requires !EndsWith(c1, "/") && !EndsWith(c2, "/")
    requires Under(p, c1)
    ensures !Under(p, c2)
  {
    UnderShape(p, c1);
    UnderShape(p, c2);
    ChildShape(c1, path);
    ChildShape(c2, path);
    if |c1| < |c2| {
      ChildSegment(c2, path, |c1|);
      assert StartsWith(p, c2) ==> c2[|c1|] == p[|c1|];
    } else if |c2| < |c1| {
      ChildSegment(c1, path, |c2|);
      assert c1[|c2|] == p[|c2|];
    } else {
      assert c1 == p[..|c1|];
    }
  }

  /** The subtrees of from and to share no path: neither slash-terminated
      form is a prefix of the other (and to is not empty). */
  predicate Apart(from: string, to: string) {
    to != "" && !PrefixOf(Base(from), Base(to)) && !PrefixOf(Base(to), Base(from))
  }

  lemma ApartBelow(from: string, to: string, p: string)
    requires Apart(from, to) && Below(p, from)
    ensures !Under(p, to)
  {
    PrefixBase(to);
    PrefixChain(Base(from), to, Base(to));
    PrefixComparable(Base(from), Base(to), p);
  }

  lemma ApartEnds(from: string, to: string)
    requires Apart(from, to)
    ensures from != to && !Below(from, to) && !Below(to, from)
  {
    PrefixBase(from);
    PrefixBase(to);
    PrefixChain(Base(to), from, Base(from));
    PrefixChain(Base(from), to, Base(to));
    PrefixRefl(Base(from));
  }

  /** `join([to, name])` for a non-empty to. */
  lemma JoinPair(to: string, name: string)
    requires to != ""
    ensures JoinOf([to, name]) == if name == "" then to else Base(to) + TrimLeadingSlashes(name)
  {
    assert [to, name][..1] == [to];
    assert [to][..0] == [];
    assert JoinAcc([to]) == to;
    assert JoinAcc([to, name]) == JoinStep(to, name);
  }

  /** Where `moveINode` sends the child c of a moved directory:
      `join([to, basename(c)])` (fs/inode.ts:576-577). */
  function Dest(to: string, c: string): string {
    JoinOf([to, Basename(c, "")])
  }

  lemma DestLands(to: string, c: string)
    requires to != ""
    ensures Under(Dest(to, c), to)
  {
    JoinPair(to, Basename(c, ""));
    if Basename(c, "") != "" {
      PrefixOfAppend(Base(to), TrimLeadingSlashes(Basename(c, "")));
    }
  }

  /** A child without a trailing '/' goes strictly below to. */
  lemma DestBelow(to: string, c: string)
    requires to != "" && c != "" && !EndsWith(c, "/")
    ensures Dest(to, c) == Base(to) + Basename(c, "")
    ensures Below(Dest(to, c), to) && |Dest(to, c)| > |to|
  {
    BasenameShape(c);
    JoinPair(to, Basename(c, ""));
    PrefixOfAppend(Base(to), Basename(c, ""));
  }

  /** Moving a child of from to its place under to keeps the two subtrees apart. */
  lemma ApartDest(from: string, to: string, c: string)
    requires Apart(from, to) && Below(c, from) && !EndsWith(c, "/")
    ensures Apart(c, Dest(to, c))
  {
    var d := Dest(to, c);
    DestBelow(to, c);
    PrefixBase(c);
    PrefixBase(d);
    PrefixTrans(Base(from), c, Base(c));
    PrefixTrans(Base(to), d, Base(d));
    if PrefixOf(Base(c), Base(d)) {
      PrefixTrans(Base(from), Base(c), Base(d));
      PrefixComparable(Base(from), Base(to), Base(d));
    }
    if PrefixOf(Base(d), Base(c)) {
      PrefixTrans(Base(to), Base(d), Base(c));
      PrefixComparable(Base(from), Base(to), Base(c));
    }
  }

  /** No key below path ends with '/'. */
  predicate NoTrailingSlash(m: map<string, INode>, path: string) {
    forall p :: p in m && Below(p, path) ==> !EndsWith(p, "/")
  }

  /** Every key that m1 binds afresh, or to another inode, is to or lies below it. */
  predicate Lands(m0: map<string, INode>, m1: map<string, INode>, to: string) {
    forall p {:trigger Under(p, to)} :: p in m1 && (p !in m0 || m1[p] != m0[p]) ==> Under(p, to)
  }

  lemma LandsTrans(m0: map<string, INode>, m1: map<string, INode>, m2: map<string, INode>,
                   d: string, to: string)
    requires Lands(m0, m1, to) && Lands(m1, m2, d) && Under(d, to)
    ensures Lands(m0, m2, to)
  {
    forall p | p in m2 && (p !in m0 || m2[p] != m0[p]) ensures Under(p, to) {
      if p !in m1 || m2[p] != m1[p] {
        UnderTrans(p, d, to);
      }
    }
  }

  /** From m1 to m2 every key strictly below to keeps its inode and nothing
      is bound afresh below from. */
  predicate Keep(m1: map<string, INode>, m2: map<string, INode>, from: string, to: string) {
    && (forall p :: p in m1 && Below(p, to) && p != to ==> p in m2 && m2[p] == m1[p])
    && (forall p :: p in m2 && Below(p, from) ==> p in m1)
  }

  /** ma and mb bind the same keys below path to the same inodes. */
  ghost predicate Agree(ma: map<string, INode>, mb: map<string, INode>, path: string) {
    forall p :: Below(p, path) ==> (p in ma <==> p in mb) && (p in ma ==> ma[p] == mb[p])
  }

  lemma AgreeBelow(ma: map<string, INode>, mb: map<string, INode>, c: string, path: string)
    requires Agree(ma, mb, path) && Below(c, path)
    ensures Agree(ma, mb, c)
  {
    forall p | Below(p, c) ensures Below(p, path) {
      BelowTrans(p, c, path);
    }
  }

  /** The child c of a moved directory left its key and its inode is bound at
      `Dest(to, c)`; for a directory, so were its own children, depth levels
      further down. */
  ghost predicate ChildMoved(m0: map<string, INode>, m1: map<string, INode>, c: string, to: string, depth: nat)
    decreases depth, 0
  {
    && c in m0 && c !in m1
    && Dest(to, c) in m1 && m1[Dest(to, c)] == m0[c]
    && (depth > 0 && m0[c].kind == Dir ==> Relocated(m0, m1, c, Dest(to, c), depth - 1))
  }

  /** Every child of from in m0 was moved under to in m1 (see ChildMoved). */
  ghost predicate Relocated(m0: map<string, INode>, m1: map<string, INode>, from: string, to: string, depth: nat)
    decreases depth, 1
  {
    forall c {:trigger IsChild(c, from)} :: c in m0 && IsChild(c, from) ==> ChildMoved(m0, m1, c, to, depth)
  }

  /** A step that keeps the destination region and binds nothing below
      from keeps what was relocated. */
  lemma {:induction false} RelocatedKeep(m0: map<string, INode>, m1: map<string, INode>, m2: map<string, INode>,
                                         f: string, t: string, depth: nat, from: string, to: string)
    requires Relocated(m0, m1, f, t, depth)
    requires Under(f, from) && Under(t, to) && to != "" && NoTrailingSlash(m0, from)
    requires Keep(m1, m2, from, to)
    ensures Relocated(m0, m2, f, t, depth)
    decreases depth, 1
  {
    forall c | c in m0 && IsChild(c, f) ensures ChildMoved(m0, m2, c, t, depth) {
      ChildBelow(c, f);
      UnderTrans(c, f, from);
      ChildMovedKeep(m0, m1, m2, c, t, depth, from, to);
    }
  }

  lemma {:induction false} ChildMovedKeep(m0: map<string, INode>, m1: map<string, INode>, m2: map<string, INode>,
                                          c: string, t: string, depth: nat, from: string, to: string)
    requires ChildMoved(m0, m1, c, t, depth)
    requires Below(c, from) && Under(t, to) && to != "" && NoTrailingSlash(m0, from)
    requires Keep(m1, m2, from, to)
    ensures ChildMoved(m0, m2, c, t, depth)
    decreases depth, 0
  {
    UnderLength(t, to);
    UnderLength(c, from);
    assert c != "" && !EndsWith(c, "/");
    DestBelow(t, c);
    var d := Dest(t, c);
    UnderTrans(d, t, to);
    assert c !in m2;
    assert d in m2 && m2[d] == m0[c];
    if depth > 0 && m0[c].kind == Dir {
      assert Relocated(m0, m1, c, d, depth - 1);
      assert Under(c, from) && Under(d, to);
      RelocatedKeep(m0, m1, m2, c, d, depth - 1, from, to);
    }
    assert depth > 0 && m0[c].kind == Dir ==> Relocated(m0, m2, c, d, depth - 1);
  }

  /** A child moved to `Dest(to, c)` lands under to. */
  lemma LandsChild(m0: map<string, INode>, m1: map<string, INode>, m2: map<string, INode>, to: string, c: string)
    requires to != "" ==> Lands(m0, m1, to)
    requires Lands(m1, m2, Dest(to, c))
    ensures to != "" ==> Lands(m0, m2, to)
  {
    if to != "" {
      DestLands(to, c);
      LandsTrans(m0, m1, m2, Dest(to, c), to);
    }
  }

  /** Binding the moved entry itself at to keeps it landing under to. */
  lemma RelinkLands(m0: map<string, INode>, m1: map<string, INode>, from: string, to: string, node: INode)
    requires to != "" ==> Lands(m0, m1, to)
    ensures to != "" ==> Lands(m0, (m1 - {from})[to := node], to)
  {
    if to != "" {
      LandsTrans(m0, m1, (m1 - {from})[to := node], to, to);
    }
  }

  /** Once every child of a directory is moved, unbinding from and binding
      to keeps them moved: the whole directory is relocated. */
  lemma RelinkRelocated(m0: map<string, INode>, m1: map<string, INode>, from: string, to: string,
                        node: INode, children: seq<string>, fuel: nat)
    requires node.kind == Dir ==> forall c :: c in children <==> c in m0 && IsChild(c, from)
    requires node.kind == Dir && Apart(from, to) && NoTrailingSlash(m0, from) ==>
               forall c :: c in children ==> ChildMoved(m0, m1, c, to, fuel)
    ensures node.kind == Dir && Apart(from, to) && NoTrailingSlash(m0, from) ==>
              Relocated(m0, (m1 - {from})[to := node], from, to, fuel)
  {
    if node.kind == Dir && Apart(from, to) && NoTrailingSlash(m0, from) {
      ApartEnds(from, to);
      var m2 := (m1 - {from})[to := node];
      assert Relocated(m0, m1, from, to, fuel);
      assert Keep(m1, m2, from, to);
      RelocatedKeep(m0, m1, m2, from, to, fuel, from, to);
    }
  }

  /** Relocated reads m0 only below from. */
  lemma {:induction false} RelocatedFrom(ma: map<string, INode>, mb: map<string, INode>, m1: map<string, INode>,
                                         f: string, t: string, depth: nat)
    requires Relocated(ma, m1, f, t, depth) && Agree(ma, mb, f)
    ensures Relocated(mb, m1, f, t, depth)
    decreases depth
  {
    forall c | c in mb && IsChild(c, f) ensures ChildMoved(mb, m1, c, t, depth) {
      ChildBelow(c, f);
      assert c in ma && ChildMoved(ma, m1, c, t, depth);
      if depth > 0 && mb[c].kind == Dir {
        AgreeBelow(ma, mb, c, f);
        RelocatedFrom(ma, mb, m1, c, Dest(t, c), depth - 1);
      }
    }
  }

  /** Every key of m0 below from that lies in none of the subtrees of done
      is still bound to its inode in m. */
  predicate Untouched(m0: map<string, INode>, m: map<string, INode>, from: string, done: set<string>) {
    forall p :: p in m0 && Below(p, from) && (forall x :: x in done ==> !Under(p, x)) ==>
      p in m && m[p] == m0[p]
  }

  /** What the loop of `moveINode` has achieved when from and to are apart:
      the children in done are moved and the rest of from's subtree is
      untouched. */
  ghost predicate Progress(m0: map<string, INode>, m: map<string, INode>, from: string, to: string,
                           done: set<string>, fuel: nat)
  {
    Apart(from, to) && NoTrailingSlash(m0, from) ==>
      (forall x :: x in done ==> IsChild(x, from) && ChildMoved(m0, m, x, to, fuel))
      && Untouched(m0, m, from, done)
  }

  /** One successful child move of the loop of `moveINode`, seen from the
      map m0 the loop started with: the child is moved, the children moved
      before stay moved, and the rest of from's subtree is untouched. */
  lemma MoveChildStep(m0: map<string, INode>, m1: map<string, INode>, m2: map<string, INode>,
                      from: string, to: string, c: string, d: string, node: INode,
                      done: set<string>, fuel: nat)
    requires fuel > 0 && c in m0 && IsChild(c, from) && d == Dest(to, c) && d != ""
    requires to != "" ==> Lands(m0, m1, to)
    requires c in m1 && node == m1[c] && d in m2 && m2[d] == node && (c != d ==> c !in m2)
    requires Moved(m1, m2, c, d, false) && Lands(m1, m2, d)
    requires node.kind == Dir && Apart(c, d) && NoTrailingSlash(m1, c) ==> Relocated(m1, m2, c, d, fuel - 1)
    requires Progress(m0, m1, from, to, done, fuel)
    ensures Progress(m0, m2, from, to, done + {c}, fuel)
  {
    if Apart(from, to) && NoTrailingSlash(m0, from) {
      ChildBelow(c, from);
      ApartDest(from, to, c);
      ApartEnds(c, d);
      MoveChildMoved(m0, m1, m2, from, to, c, done, fuel);
    }
  }

  lemma ProgressAll(m0: map<string, INode>, m: map<string, INode>, from: string, to: string,
                    children: seq<string>, done: set<string>, fuel: nat)
    requires Progress(m0, m, from, to, done, fuel)
    requires forall j :: 0 <= j < |children| ==> children[j] in done
    ensures Apart(from, to) && NoTrailingSlash(m0, from) ==>
              forall c :: c in children ==> ChildMoved(m0, m, c, to, fuel)
  {
  }

  lemma MoveChildMoved(m0: map<string, INode>, m1: map<string, INode>, m2: map<string, INode>,
                       from: string, to: string, c: string, done: set<string>, fuel: nat)
    requires Apart(from, to) && NoTrailingSlash(m0, from) && fuel > 0 && IsChild(c, from)
    requires forall x :: x in done ==> IsChild(x, from) && ChildMoved(m0, m1, x, to, fuel)
    requires Lands(m0, m1, to) && Untouched(m0, m1, from, done)
    requires c in m1 && c !in m2 && Dest(to, c) in m2 && m2[Dest(to, c)] == m1[c]
    requires Moved(m1, m2, c, Dest(to, c), false) && Lands(m1, m2, Dest(to, c))
    requires m1[c].kind == Dir && Apart(c, Dest(to, c)) && NoTrailingSlash(m1, c) ==>
               Relocated(m1, m2, c, Dest(to, c), fuel - 1)
    ensures forall x :: x in done + {c} ==> IsChild(x, from) && ChildMoved(m0, m2, x, to, fuel)
    ensures Untouched(m0, m2, from, done + {c})
  {
    var d := Dest(to, c);
    ChildBelow(c, from);
    ApartBelow(from, to, c);
    assert c in m0;
    assert c !in done;
    assert !EndsWith(c, "/");
    forall x | x in done ensures !Under(c, x) {
      SiblingsApart(from, c, x, c);
    }
    assert m1[c] == m0[c];
    DestBelow(to, c);
    ApartDest(from, to, c);
    // what the loop has not moved yet is as it was
    forall p | Below(p, c) ensures (p in m1 <==> p in m0) && (p in m1 ==> m1[p] == m0[p]) {
      BelowTrans(p, c, from);
      if p in m0 {
        forall x | x in done ensures !Under(p, x) {
          SiblingsApart(from, c, x, p);
        }
      }
      if p in m1 && p !in m0 {
        ApartBelow(from, to, p);
      }
    }
    assert Agree(m1, m0, c);
    assert NoTrailingSlash(m1, c) by {
      forall p | p in m1 && Below(p, c) ensures !EndsWith(p, "/") {
        BelowTrans(p, c, from);
      }
    }
    if m0[c].kind == Dir {
      RelocatedFrom(m1, m0, m2, c, d, fuel - 1);
    }
    assert ChildMoved(m0, m2, c, to, fuel);
    // the move of c keeps the destination region and binds nothing below from
    assert Keep(m1, m2, from, to) by {
      forall p | p in m1 && Below(p, to) && p != to ensures p in m2 && m2[p] == m1[p] {
        if p == c || Below(p, c) {
          if p != c {
            BelowTrans(p, c, from);
            ApartBelow(from, to, p);
          } else {
            ApartBelow(from, to, c);
          }
        }
      }
      forall p | p in m2 && Below(p, from) ensures p in m1 {
        if p !in m1 {
          UnderTrans(p, d, to);
          ApartBelow(from, to, p);
        }
      }
    }
    forall x | x in done ensures ChildMoved(m0, m2, x, to, fuel) {
      ChildBelow(x, from);
      ChildMovedKeep(m0, m1, m2, x, to, fuel, from, to);
    }
  }

  /** The inodes a snapshot holds, as the `INode` constructor rebuilds them. */
  function Loaded(v: Snapshot): (m: map<string, INode>)
    ensures m.Keys == v.inodes.Keys
    ensures forall p :: p in m ==> m[p] == FromRecord(v.inodes[p])
  {
    map p | p in v.inodes :: FromRecord(v.inodes[p])
  }

  /** The inodes of a snapshot whose keys are not in rest. */
  function LoadedExcept(v: Snapshot, rest: set<string>): map<string, INode> {
    map p | p in v.inodes && p !in rest :: FromRecord(v.inodes[p])
  }

  /** Nothing is loaded before the loop, everything after it. */
  lemma LoadedPart(m: map<string, INode>, v: Snapshot, rest: set<string>)
    ensures rest == v.inodes.Keys ==> m + LoadedExcept(v, rest) == m
    ensures rest == {} ==> LoadedExcept(v, rest) == Loaded(v)
  {
    if rest == v.inodes.Keys {
      assert LoadedExcept(v, rest) == map[];
    }
  }

  /** Binding one more saved inode extends what is loaded by that key. */
  lemma LoadedStep(m: map<string, INode>, v: Snapshot, rest: set<string>, p: string)
    requires p in rest && rest <= v.inodes.Keys
    ensures (m + LoadedExcept(v, rest))[p := FromRecord(v.inodes[p])] == m + LoadedExcept(v, rest - {p})
  {
  }

  class INodeManager {
    var inodes: map<string, INode>
    /** The keys of `inodes` in `Object.keys` order. */
    var order: seq<string>
    /** The `onChanged` calls made so far. */
    var events: seq<Event>
    /** The ids of the inodes whose blocks were freed. */
    var freed: seq<int>
    const idWork: IdWorker

    ghost predicate Valid()
      reads this
    {
      Storage.Distinct(order) && forall p :: p in inodes <==> p in order
    }

    constructor(idWork: IdWorker)
      ensures Valid() && inodes == map[] && events == [] && freed == [] && this.idWork == idWork
    {
      inodes, order, events, freed := map[], [], [], [];
      this.idWork := idWork;
    }

    /** `this.inodes[path] = inode`. */
    method Bind(path: string, inode: INode)
      requires Valid()
      modifies this`inodes, this`order
      ensures Valid() && inodes == old(inodes)[path := inode]
    {
      if path !in inodes {
        order := order + [path];
      }
      inodes := inodes[path := inode];
    }

    /** `delete this.inodes[path]`. */
    method Unbind(path: string)
      requires Valid()
      modifies this`inodes, this`order
      ensures Valid() && inodes == old(inodes) - {path}
    {
      order := Storage.Without(order, path);
      inodes := inodes - {path};
    }

    /** `onChanged` (fs/inode.ts:502-506): queue a save of the dictionary. */
    method OnChanged(kind: EventKind, path: string, inode: INode)
      modifies this`events
      ensures events == old(events) + [Event(kind, path, inode)]
    {
      events := events + [Event(kind, path, inode)];
    }

    /** `createINode(path, type)` (fs/inode.ts:486-497): a fresh inode of
        the given type replaces whatever was bound at path. */
    method CreateINode(path: string, kind: NodeType, now: int) returns (inode: INode)
      requires Valid()
      modifies this`inodes, this`order, this`events, idWork
      ensures Valid()
      ensures inode == NewINode(inode.id, now).(kind := kind) && inode.id > old(idWork.last)
      ensures inodes == old(inodes)[path := inode]
      ensures events == old(events) + [Event(Created, path, inode)]
    {
      var id := idWork.NextId();
      inode := NewINode(id, now).(kind := kind);
      Bind(path, inode);
      OnChanged(Created, path, inode);
    }

    /** The loop of `initialize` (fs/inode.ts:474-479): every saved inode is
        bound at its path, in some order of the snapshot's keys. */
    method LoadSnapshot(v: Snapshot)
      requires Valid()
      modifies this`inodes, this`order
      ensures Valid() && inodes == old(inodes) + Loaded(v)
    {
      var rest := v.inodes.Keys;
      LoadedPart(old(inodes), v, rest);
      while rest != {}
        invariant Valid() && rest <= v.inodes.Keys
        invariant inodes == old(inodes) + LoadedExcept(v, rest)
        decreases |rest|
      {
        var p :| p in rest;
        LoadedStep(old(inodes), v, rest, p);
        Bind(p, FromRecord(v.inodes[p]));
        rest := rest - {p};
      }
      LoadedPart(old(inodes), v, rest);
    }

    /** `initialize` (fs/inode.ts:470-485), given the snapshot the saver
        loaded: the saved inodes are bound over the current ones, then "/"
        is created as a directory when it is still missing. */
    method Initialize(v: Snapshot, now: int)
      requires Valid()
      modifies this`inodes, this`order, this`events, idWork
      ensures Valid() && "/" in inodes
      ensures "/" in old(inodes) + Loaded(v) ==>
                inodes == old(inodes) + Loaded(v) && events == old(events)
      ensures "/" !in old(inodes) + Loaded(v) ==>
                && inodes == (old(inodes) + Loaded(v))["/" := inodes["/"]]
                && inodes["/"].kind == Dir
                && events == old(events) + [Event(Created, "/", inodes["/"])]
    {
      LoadSnapshot(v);
      if "/" !in inodes {
        var root := CreateINode("/", Dir, now);
      }
    }

    /** `getINode(path)` (fs/inode.ts:512-514). */
    function GetINode(path: string): (r: Option<INode>)
      reads this
      ensures r.Some? <==> path in inodes
      ensures r.Some? ==> r.value == inodes[path]
    {
      if path in inodes then Some(inodes[path]) else None
    }

    /** `getChildren(path)` (fs/inode.ts:520-525): exactly the keys one
        segment below path, each once, in key order. */
    function GetChildren(path: string): (r: seq<string>)
      reads this
      requires Valid()
      ensures forall c :: c in r <==> c in inodes && IsChild(c, path)
      ensures Storage.Distinct(r)
    {
      ChildrenInDistinct(order, path);
      ChildrenIn(order, path)
    }

    /** `getSize(path)` (fs/inode.ts:594-614): a file's size; for a
        directory the sum over its children, in order, the first failure
        propagating. */
    function GetSize(path: string): (r: Result<int, INodeError>)
      reads this
      requires Valid()
      ensures r.Err? ==> r == Err(NotFound)
      ensures path in inodes && inodes[path].kind == File ==> r == Ok(inodes[path].size)
      decreases Longer(inodes, |path|), 1
    {
      if path !in inodes then Err(NotFound)
      else if inodes[path].kind == File then Ok(inodes[path].size)
      else SumSizes(path, GetChildren(path))
    }

    /** The loop of `getSize` over the children of a directory. */
    function SumSizes(path: string, children: seq<string>): (r: Result<int, INodeError>)
      reads this
      requires Valid() && path in inodes
      requires forall c :: c in children ==> c in inodes && IsChild(c, path)
      ensures r.Err? ==> r == Err(NotFound)
      decreases Longer(inodes, |path|), 0, |children|
    {
      if children == [] then Ok(0)
      else
        ChildBelow(children[0], path);
        LongerShrinks(inodes, inodes, path, children[0]);
        match GetSize(children[0])
        case Err(e) => Err(e)
        case Ok(s) =>
          match SumSizes(path, children[1..])
          case Err(e) => Err(e)
          case Ok(t) => Ok(s + t)
    }

    /** `getSize` fails exactly for an absent path: inside the tree every
        child it visits is present. */
    lemma {:induction false} GetSizeDefined(path: string)
      requires Valid()
      ensures GetSize(path).Ok? <==> path in inodes
      decreases Longer(inodes, |path|), 1
    {
      if path in inodes && inodes[path].kind == Dir {
        SumSizesDefined(path, GetChildren(path));
      }
    }

    lemma {:induction false} SumSizesDefined(path: string, children: seq<string>)
      requires Valid() && path in inodes
      requires forall c :: c in children ==> c in inodes && IsChild(c, path)
      ensures SumSizes(path, children).Ok?
      decreases Longer(inodes, |path|), 0, |children|
    {
      if children != [] {
        ChildBelow(children[0], path);
        LongerShrinks(inodes, inodes, path, children[0]);
        GetSizeDefined(children[0]);
        SumSizesDefined(path, children[1..]);
      }
    }

    /** With every file size non-negative, so is every `getSize`. */
    lemma {:induction false} GetSizeNonNegative(path: string)
      requires Valid()
      requires forall p :: p in inodes && inodes[p].kind == File ==> inodes[p].size >= 0
      ensures GetSize(path).Ok? ==> GetSize(path).value >= 0
      decreases Longer(inodes, |path|), 1
    {
      if path in inodes && inodes[path].kind == Dir {
        SumSizesNonNegative(path, GetChildren(path));
      }
    }

    lemma {:induction false} SumSizesNonNegative(path: string, children: seq<string>)
      requires Valid() && path in inodes
      requires forall c :: c in children ==> c in inodes && IsChild(c, path)
      requires forall p :: p in inodes && inodes[p].kind == File ==> inodes[p].size >= 0
      ensures SumSizes(path, children).Ok? ==> SumSizes(path, children).value >= 0
      decreases Longer(inodes, |path|), 0, |children|
    {
      if children != [] {
        ChildBelow(children[0], path);
        LongerShrinks(inodes, inodes, path, children[0]);
        GetSizeNonNegative(children[0]);
        SumSizesNonNegative(path, children[1..]);
      }
    }

    /** `removeINode(path, deleteEntity, cascade)` (fs/inode.ts:532-554).
        Children of a directory are removed first, each with `cascade` at
        its default (true); a failing child aborts the removal. Freeing a
        file's blocks may fail (a hole, a backend that refuses the delete):
        the entry then stays bound and no event is emitted. Whether it
        fails is not decided here, so it is an unconstrained choice. */
    method RemoveINode(path: string, deleteEntity: bool, cascade: bool) returns (r: Result<INode, INodeError>)
      requires Valid()
      modifies this`inodes, this`order, this`events, this`freed
      ensures Valid()
      ensures path !in old(inodes) ==>
                r == Err(NotFound) && inodes == old(inodes) && events == old(events) && freed == old(freed)
      ensures r.Ok? ==> path in old(inodes) && r.value == old(inodes)[path] && path !in inodes
      ensures Shrunk(old(inodes), inodes, path)
      ensures path in old(inodes) && old(inodes)[path].kind == File && r.Err? ==>
                && deleteEntity && r == Err(FreeFailed)
                && inodes == old(inodes) && events == old(events) && freed == old(freed)
      ensures path in old(inodes) && (old(inodes)[path].kind == File || !cascade) && r.Ok? ==>
                && r == Ok(old(inodes)[path])
                && inodes == old(inodes) - {path}
                && events == old(events) + [Event(Deleted, path, r.value)]
                && freed == old(freed) + (if old(inodes)[path].kind == File && deleteEntity then [r.value.id] else [])
      ensures (path in old(inodes) && !(old(inodes)[path].kind == File && deleteEntity) &&
               (old(inodes)[path].kind == File || !cascade)) ==> r.Ok?
      ensures r.Ok? && old(inodes)[path].kind == Dir && cascade ==>
                forall c :: c in old(inodes) && IsChild(c, path) ==> c !in inodes
      ensures r.Ok? ==> |events| > 0 && events[|events| - 1] == Event(Deleted, path, r.value)
      ensures old(events) <= events
      ensures !deleteEntity ==> freed == old(freed)
      ensures old(freed) <= freed
      decreases Longer(inodes, |path|), 1
    {
      if path !in inodes {
        r := Err(NotFound);
        return;
      }
      var node := inodes[path];
      if node.kind == File && deleteEntity {
        var freeOk: bool :| true;
        if !freeOk {
          r := Err(FreeFailed);
          return;
        }
        freed := freed + [node.id];
      } else if node.kind == Dir && cascade {
        var failure := RemoveChildren(path, GetChildren(path), deleteEntity);
        if failure.Some? {
          r := Err(failure.value);
          return;
        }
      }
      ghost var m := inodes;
      Unbind(path);
      ShrunkUnbind(old(inodes), m, path);
      OnChanged(Deleted, path, node);
      r := Ok(node);
    }

    /** The loop of `removeINode` over the children of a directory: each is
        removed with its own subtree; the first failure stops the loop. */
    method RemoveChildren(path: string, children: seq<string>, deleteEntity: bool) returns (failure: Option<INodeError>)
      requires Valid() && path in inodes
      requires forall c :: c in children ==> c in inodes && IsChild(c, path)
      modifies this`inodes, this`order, this`events, this`freed
      ensures Valid() && path in inodes && inodes[path] == old(inodes)[path]
      ensures Shrunk(old(inodes), inodes, path)
      ensures failure.None? ==> NoneIn(children, inodes)
      ensures old(events) <= events
      ensures !deleteEntity ==> freed == old(freed)
      ensures old(freed) <= freed
      decreases Longer(inodes, |path|), 0
    {
      ghost var m0 := inodes;
      for k := 0 to |children|
        invariant Valid()
        invariant path in inodes && inodes[path] == m0[path]
        invariant Shrunk(m0, inodes, path)
        invariant NoneIn(children[..k], inodes)
        invariant old(events) <= events
        invariant !deleteEntity ==> freed == old(freed)
        invariant old(freed) <= freed
      {
        var c := children[k];
        ChildBelow(c, path);
        LongerShrinks(m0, inodes, path, c);
        ghost var m1 := inodes;
        var rc := RemoveINode(c, deleteEntity, true);
        ShrunkTrans(m0, m1, inodes, path, c);
        if rc.Err? {
          return Some(rc.error);
        }
        NoneInStep(m1, inodes, children, k, c);
      }
      assert children[..|children|] == children;
      return None;
    }

    /** `moveINode(from, to, overwrite)` (fs/inode.ts:562-589). The checks
        come before any change; a directory's children are moved first,
        depth first, each to `join([to, basename(child)])` without
        overwriting; then the entry itself is unbound and bound again at to.
        The recursion is bounded by fuel. */
    method MoveINode(from: string, to: string, overwrite: bool, fuel: nat) returns (r: Result<INode, INodeError>)
      requires Valid()
      modifies this`inodes, this`order, this`events, this`freed
      ensures Valid()
      ensures from !in old(inodes) ==> r == Err(NotFound) && inodes == old(inodes) && events == old(events)
      ensures from in old(inodes) && to in old(inodes) && !overwrite ==>
                r == Err(AlreadyExists) && inodes == old(inodes) && events == old(events)
      ensures r.Ok? ==> from in old(inodes) && r.value == old(inodes)[from]
                        && to in inodes && inodes[to] == r.value && (from != to ==> from !in inodes)
      ensures Moved(old(inodes), inodes, from, to, overwrite)
      ensures to != "" ==> Lands(old(inodes), inodes, to)
      ensures r.Ok? && r.value.kind == Dir && Apart(from, to) && NoTrailingSlash(old(inodes), from) ==>
                Relocated(old(inodes), inodes, from, to, fuel)
      ensures from in old(inodes) && old(inodes)[from].kind == File && !(to in old(inodes) && !overwrite) ==>
                r.Ok? && inodes == (old(inodes) - {from})[to := old(inodes)[from]]
      ensures freed == old(freed)
      ensures old(events) <= events
      ensures r.Ok? ==> |events| >= |old(events)| + 2 &&
                        events[|events| - 2..] == [Event(Deleted, from, r.value), Event(Created, to, r.value)]
      ensures r.Ok? && r.value.kind == File ==>
                events == old(events) + [Event(Deleted, from, r.value), Event(Created, to, r.value)]
      decreases fuel, 2
    {
      if from !in inodes {
        r := Err(NotFound);
        return;
      }
      if to in inodes && !overwrite {
        r := Err(AlreadyExists);
        return;
      }
      var node := inodes[from];
      var children: seq<string> := [];
      if node.kind == Dir {
        children := GetChildren(from);
        var failure := MoveChildren(from, to, overwrite, children, fuel);
        if failure.Some? {
          r := Err(failure.value);
          return;
        }
      }
      ghost var m1, e1 := inodes, events;
      assert node.kind == File ==> e1 == old(events);
      Relink(from, to, node);
      assert events[|e1|..] == [Event(Deleted, from, node), Event(Created, to, node)];
      MovedRebind(old(inodes), m1, from, to, overwrite, node);
      RelinkLands(old(inodes), m1, from, to, node);
      RelinkRelocated(old(inodes), m1, from, to, node, children, fuel);
      r := Ok(node);
    }

    /** The last step of `moveINode` (fs/inode.ts:582-586): the entry is
        removed from without touching its blocks or children, then bound at
        to with a Created event. */
    method Relink(from: string, to: string, node: INode)
      requires Valid() && from in inodes && inodes[from] == node
      modifies this`inodes, this`order, this`events, this`freed
      ensures Valid()
      ensures inodes == (old(inodes) - {from})[to := node]
      ensures events == old(events) + [Event(Deleted, from, node), Event(Created, to, node)]
      ensures freed == old(freed)
    {
      var removed := RemoveINode(from, false, false);
      Bind(to, node);
      OnChanged(Created, to, node);
    }

    /** The loop of `moveINode` over the children of a directory: each
        child moves, with its subtree, to the same name under to; the first
        failure stops the loop. */
    method MoveChildren(from: string, to: string, overwrite: bool, children: seq<string>, fuel: nat)
      returns (failure: Option<INodeError>)
      requires Valid() && from in inodes && (!overwrite ==> to !in inodes)
      requires forall c :: c in children ==> c in inodes && IsChild(c, from)
      modifies this`inodes, this`order, this`events, this`freed
      ensures Valid() && from in inodes && inodes[from] == old(inodes)[from]
      ensures Moved(old(inodes), inodes, from, to, false)
      ensures to != "" ==> Lands(old(inodes), inodes, to)
      ensures failure.None? && Apart(from, to) && NoTrailingSlash(old(inodes), from) ==>
                forall c :: c in children ==> ChildMoved(old(inodes), inodes, c, to, fuel)
      ensures freed == old(freed)
      ensures old(events) <= events
      decreases fuel, 1
    {
      ghost var m0 := inodes;
      ghost var done: set<string> := {};
      for i := 0 to |children|
        invariant Valid()
        invariant from in inodes && inodes[from] == m0[from]
        invariant Moved(m0, inodes, from, to, false)
        invariant to != "" ==> Lands(m0, inodes, to)
        invariant forall j :: 0 <= j < i ==> children[j] in done
        invariant Progress(m0, inodes, from, to, done, fuel)
        invariant freed == old(freed)
        invariant old(events) <= events
      {
        if fuel == 0 {
          return Some(TooDeep);
        }
        var c := children[i];
        var rc := MoveChild(from, to, c, fuel, m0, done);
        if rc.Err? {
          return Some(rc.error);
        }
        done := done + {c};
      }
      ProgressAll(m0, inodes, from, to, children, done, fuel);
      return None;
    }

    /** One turn of that loop: the child c of from moves, without
        overwriting, to `join([to, basename(c)])`. Seen from the map m0 the
        loop started with, the frame and the landing place are kept, and on
        success c joins the children already moved. */
    method MoveChild(from: string, to: string, c: string, fuel: nat,
                     ghost m0: map<string, INode>, ghost done: set<string>)
      returns (rc: Result<INode, INodeError>)
      requires Valid() && fuel > 0 && from in m0 && from in inodes && inodes[from] == m0[from]
      requires c in m0 && IsChild(c, from)
      requires Moved(m0, inodes, from, to, false) && (to != "" ==> Lands(m0, inodes, to))
      requires Progress(m0, inodes, from, to, done, fuel)
      modifies this`inodes, this`order, this`events, this`freed
      ensures Valid() && from in inodes && inodes[from] == m0[from]
      ensures Moved(m0, inodes, from, to, false) && (to != "" ==> Lands(m0, inodes, to))
      ensures rc.Ok? ==> Progress(m0, inodes, from, to, done + {c}, fuel)
      ensures freed == old(freed) && old(events) <= events
      decreases fuel, 0
    {
      ChildBelow(c, from);
      var name := Basename(c, "");
      var nPath := Join([to, name]);
      ghost var m1 := inodes;
      rc := MoveINode(c, nPath, false, fuel - 1);
      MovedTrans(m0, m1, inodes, from, to, c, nPath);
      LandsChild(m0, m1, inodes, to, c);
      if rc.Ok? {
        MoveChildStep(m0, m1, inodes, from, to, c, nPath, rc.value, done, fuel);
      }
    }
  }

  /** A root with one file "/a" and one sub-directory "/d" holding "/d/b":
      the children of "/" are "/a" and "/d", not "/d/b". */
  lemma ChildrenExample()
    ensures IsChild("/a", "/") && IsChild("/d", "/") && IsChild("/d/", "/")
    ensures !IsChild("/d/b", "/")
    ensures !IsChild("/", "/")
    ensures IsChild("/d/b", "/d")
  {
    assert Base("/") == "/";
    assert Base("/d") == "/d/";
    assert "/d/b"[|"/"|..] == "d/b" && "d/b"[1] == '/';
    assert "/d/b"[|"/d/"|..] == "b";
  }
}
