/** The store behind every tree: an uncommitted cache over a database, with precomputed zero hashes for
    the nodes that neither holds.  `committed` and `latest` are the leaf maps that the two views denote. */
module MerkleTree {
  import opened Bytes
  import opened MerkleRoot

  datatype Option<T> = None | Some(value: T)

  /** Database keys: `name:level:index` for a node and `name` for a tree's metadata. */
  datatype Key = NodeKey(name: string, level: nat, index: nat) | MetaKey(name: string)

  type Store = map<Key, Buffer>

  const MAX_DEPTH := 254

  datatype Meta = Meta(root: Buffer, depth: nat, size: nat)

  /** Thirty-two root bytes, a 32-bit little-endian depth and a 32-byte little-endian size. */
  function EncodeMeta(m: Meta): Buffer
    requires m.depth < U32_LIMIT
  {
    (m.root + Zeros(32))[..32] + U32LE(m.depth) + ToBufferLE(m.size, 32)
  }

  /** Reading the depth of a buffer shorter than 36 bytes throws. */
  function DecodeMeta(b: Buffer): Option<Meta> {
    if |b| < 36 then None else Some(Meta(b[..32], ReadU32LE(b[32..36]), ToBigIntLE(b[36..])))
  }

  /** The metadata codec is lossless exactly for 32-byte roots and sizes below 2^256. */
  lemma MetaRoundTrip(m: Meta)
    requires m.depth < U32_LIMIT
    ensures DecodeMeta(EncodeMeta(m)) == Some(m) <==> |m.root| == 32 && m.size < Pow16(64)
  {
    var b := EncodeMeta(m);
    assert b[32..36] == U32LE(m.depth);
    assert b[36..] == ToBufferLE(m.size, 32);
    U32LERoundTrip(m.depth);
    LittleEndianRoundTrip(m.size, 32);
    if |m.root| == 32 { assert b[..32] == m.root; }
  }

  /** Where root, depth and size stand. */
  lemma MetaLayout(m: Meta)
    requires m.depth < U32_LIMIT && |m.root| == 32
    ensures var b := EncodeMeta(m);
      |b| == 68 && b[..32] == m.root && b[32..36] == ToBufferLE(m.depth, 4) && b[36..] == ToBufferLE(m.size, 32)
  {
    U32Bytes(m.depth);
    hide ToBufferLE; hide U32LE;
    assert (m.root + Zeros(32))[..32] == m.root;
  }

  /** A node as read from a store, falling back to the zero hash of its level (level 0 is the root). */
  function NodeAt(nodes: Store, zeroHashes: seq<Buffer>, name: string, level: nat, index: nat): Buffer
    requires 1 <= level <= |zeroHashes|
  {
    if NodeKey(name, level, index) in nodes then nodes[NodeKey(name, level, index)] else zeroHashes[level - 1]
  }

  /** Every node below the root, as read, is the root of its subtree of `leaves`. */
  ghost predicate Coherent(h: Hasher, name: string, zeroHashes: seq<Buffer>, nodes: Store, leaves: LeafMap) {
    forall level: nat, index: nat :: 1 <= level <= |zeroHashes| ==>
      NodeAt(nodes, zeroHashes, name, level, index) == SubRoot(h, leaves, |zeroHashes| - level, index)
  }

  /** Coherence looks only at this tree's nodes. */
  lemma CoherentTransfer(h: Hasher, name: string, zeroHashes: seq<Buffer>, nodes: Store, nodes': Store, leaves: LeafMap)
    requires Coherent(h, name, zeroHashes, nodes, leaves)
    requires forall l: nat, i: nat :: 1 <= l <= |zeroHashes| ==>
      NodeAt(nodes, zeroHashes, name, l, i) == NodeAt(nodes', zeroHashes, name, l, i)
    ensures Coherent(h, name, zeroHashes, nodes', leaves)
  {
  }

  ghost predicate IsZeroHashes(h: Hasher, zeroHashes: seq<Buffer>) {
    forall i :: 0 <= i < |zeroHashes| ==> zeroHashes[i] == ZeroHash(h, |zeroHashes| - 1 - i)
  }

  /** The constructor's loop, from the leaf layer up. */
  method ComputeZeroHashes(h: Hasher, depth: nat) returns (zeroHashes: seq<Buffer>, root: Buffer)
    ensures |zeroHashes| == depth && IsZeroHashes(h, zeroHashes)
    ensures root == ZeroHash(h, depth)
  {
    root, zeroHashes := INITIAL_LEAF, [];
    while |zeroHashes| < depth
      invariant |zeroHashes| <= depth && IsZeroHashes(h, zeroHashes)
      invariant root == ZeroHash(h, |zeroHashes|)
    {
      zeroHashes, root := [root] + zeroHashes, h.compress(root, root);
    }
  }

  ghost predicate HasNoNodes(db: Store, name: string) {
    forall level: nat, index: nat :: NodeKey(name, level, index) !in db
  }

  /** A store without nodes of this tree denotes the empty leaf map. */
  lemma EmptyStoreCoherent(h: Hasher, name: string, zeroHashes: seq<Buffer>, db: Store)
    requires IsZeroHashes(h, zeroHashes) && HasNoNodes(db, name)
    ensures Coherent(h, name, zeroHashes, db, map[])
  {
    forall level: nat, index: nat | 1 <= level <= |zeroHashes|
      ensures NodeAt(db, zeroHashes, name, level, index) == SubRoot(h, map[], |zeroHashes| - level, index)
    {
      EmptySubRoot(h, |zeroHashes| - level, index);
    }
  }

  /** All nodes agree with `leaves`, except perhaps the ancestors of leaf `index` above `level`. */
  ghost predicate PatchedFrom(h: Hasher, name: string, zs: seq<Buffer>, nodes: Store, leaves: LeafMap, index: nat, level: nat) {
    forall l: nat, i: nat :: 1 <= l <= |zs| && (l >= level || i != Shift(index, |zs| - l)) ==>
      NodeAt(nodes, zs, name, l, i) == SubRoot(h, leaves, |zs| - l, i)
  }

  /** Writing a leaf makes stale no node but its ancestors. */
  lemma PatchLeaf(h: Hasher, name: string, zs: seq<Buffer>, nodes: Store, leaves: LeafMap, index: nat, leaf: Buffer)
    requires zs != [] && Coherent(h, name, zs, nodes, leaves)
    ensures PatchedFrom(h, name, zs, nodes[NodeKey(name, |zs|, index) := leaf], leaves[index := leaf], index, |zs|)
    ensures index == Shift(index, 0) && leaf == SubRoot(h, leaves[index := leaf], 0, index)
  {
    var nodes', leaves' := nodes[NodeKey(name, |zs|, index) := leaf], leaves[index := leaf];
    forall l: nat, i: nat | 1 <= l <= |zs| && (l >= |zs| || i != Shift(index, |zs| - l))
      ensures NodeAt(nodes', zs, name, l, i) == SubRoot(h, leaves', |zs| - l, i)
    {
      if i != Shift(index, |zs| - l) {
        SubRootElsewhere(h, leaves, index, leaf, |zs| - l, i);
        assert NodeAt(nodes', zs, name, l, i) == NodeAt(nodes, zs, name, l, i);
      }
    }
  }

  lemma WriteThrough(db: Store, cache: Store, k: Key, node: Buffer)
    ensures db + cache[k := node] == (db + cache)[k := node]
  {
  }

  /** One step up: the parent of a right node and its right sibling is right. */
  lemma PatchParent(h: Hasher, name: string, zs: seq<Buffer>, nodes: Store, leaves: LeafMap, index: nat,
                    level: nat, i: nat, current: Buffer, sibling: Buffer, parent: Buffer)
    requires 1 <= level <= |zs| && i == Shift(index, |zs| - level)
    requires PatchedFrom(h, name, zs, nodes, leaves, index, level)
    requires current == SubRoot(h, leaves, |zs| - level, i)
    requires sibling == NodeAt(nodes, zs, name, level, Sibling(i))
    requires parent == if i % 2 == 1 then h.compress(sibling, current) else h.compress(current, sibling)
    ensures i / 2 == Shift(index, |zs| - (level - 1))
    ensures parent == SubRoot(h, leaves, |zs| - (level - 1), i / 2)
    ensures PatchedFrom(h, name, zs, nodes[NodeKey(name, level - 1, i / 2) := parent], leaves, index, level - 1)
  {
    ParentOf(h, leaves, |zs| - level, i);
    var nodes' := nodes[NodeKey(name, level - 1, i / 2) := parent];
    forall l: nat, j: nat | 1 <= l <= |zs| && (l >= level - 1 || j != Shift(index, |zs| - l))
      ensures NodeAt(nodes', zs, name, l, j) == SubRoot(h, leaves, |zs| - l, j)
    {
      if !(l == level - 1 && j == i / 2) {
        assert NodeAt(nodes', zs, name, l, j) == NodeAt(nodes, zs, name, l, j);
      }
    }
  }

  lemma PatchedIsCoherent(h: Hasher, name: string, zs: seq<Buffer>, nodes: Store, leaves: LeafMap, index: nat)
    requires PatchedFrom(h, name, zs, nodes, leaves, index, 0)
    ensures Coherent(h, name, zs, nodes, leaves)
  {
  }

  /** The database after a commit. */
  function CommittedStore(db: Store, cache: Store, name: string, meta: Buffer): Store {
    (db + cache)[MetaKey(name) := meta]
  }

  /** A commit keeps the entries of other trees. */
  ghost predicate OthersKept(db: Store, db': Store, name: string) {
    forall k: Key :: k.name != name ==> (k in db' <==> k in db) && (k in db' ==> db'[k] == db[k])
  }

  ghost predicate SameNodes(a: Store, b: Store, zs: seq<Buffer>, name: string) {
    forall l: nat, i: nat :: 1 <= l <= |zs| ==> NodeAt(a, zs, name, l, i) == NodeAt(b, zs, name, l, i)
  }

  lemma CommittedCoherent(h: Hasher, name: string, zs: seq<Buffer>, db: Store, cache: Store, leaves: LeafMap, meta: Buffer)
    requires Coherent(h, name, zs, db + cache, leaves) && forall k :: k in cache ==> k.NodeKey? && k.name == name
    ensures var db' := CommittedStore(db, cache, name, meta);
      && Coherent(h, name, zs, db', leaves) && SameNodes(db', db + cache, zs, name) && OthersKept(db, db', name)
      && MetaKey(name) in db' && db'[MetaKey(name)] == meta && db' + map[] == db'
  {
    hide SubRoot;
    var db' := CommittedStore(db, cache, name, meta);
    assert SameNodes(db', db + cache, zs, name);
    CoherentTransfer(h, name, zs, db + cache, db', leaves);
  }

  lemma CoherentAt(h: Hasher, name: string, zs: seq<Buffer>, nodes: Store, leaves: LeafMap, level: nat, index: nat)
    requires Coherent(h, name, zs, nodes, leaves) && 1 <= level <= |zs|
    ensures NodeAt(nodes, zs, name, level, index) == SubRoot(h, leaves, |zs| - level, index)
  {
  }

  class TreeBase {
    const hasher: Hasher
    const name: string
    const depth: nat
    const zeroHashes: seq<Buffer>
    var db: Store
    var cache: Store
    var root: Buffer
    var size: nat
    var cachedSize: Option<nat>
    ghost var committed: LeafMap
    ghost var latest: LeafMap

    ghost predicate Valid()
      reads this
    {
      && 1 <= depth <= MAX_DEPTH && |zeroHashes| == depth && IsZeroHashes(hasher, zeroHashes)
      && (forall k :: k in cache ==> k.NodeKey? && k.name == name)
      && Coherent(hasher, name, zeroHashes, db, committed)
      && Coherent(hasher, name, zeroHashes, db + cache, latest)
      && GetRoot(false) == SubRoot(hasher, committed, depth, 0)
      && GetRoot(true) == SubRoot(hasher, latest, depth, 0)
    }

    ghost function Leaves(includeUncommitted: bool): LeafMap
      reads this
    {
      if includeUncommitted then latest else committed
    }

    /** The nodes that a reader with this flag sees. */
    function View(includeUncommitted: bool): Store
      reads this
    {
      if includeUncommitted then db + cache else db
    }

    function MaxIndex(): nat {
      Pow2(depth) - 1
    }

    function GetRoot(includeUncommitted: bool): Buffer
      reads this
    {
      if includeUncommitted && NodeKey(name, 0, 0) in cache then cache[NodeKey(name, 0, 0)] else root
    }

    function GetNumLeaves(includeUncommitted: bool): nat
      reads this
    {
      if includeUncommitted && cachedSize.Some? then cachedSize.value else size
    }

    function GetLatestValueAtIndex(level: nat, index: nat, includeUncommitted: bool): Buffer
      requires 1 <= level <= |zeroHashes|
      reads this
    {
      NodeAt(View(includeUncommitted), zeroHashes, name, level, index)
    }

    function GetLeafValue(index: nat, includeUncommitted: bool): (leaf: Buffer)
      requires Valid()
      reads this
      ensures leaf == LeafAt(Leaves(includeUncommitted), index)
    {
      assert SubRoot(hasher, Leaves(includeUncommitted), 0, index) == LeafAt(Leaves(includeUncommitted), index);
      GetLatestValueAtIndex(depth, index, includeUncommitted)
    }

    /** For a supported depth; `CreateTree` rejects the others.  The tree is valid over a store that denotes `leaves`. */
    constructor (db: Store, hasher: Hasher, name: string, depth: nat, size: nat, root: Option<Buffer>, ghost leaves: LeafMap)
      requires 1 <= depth <= MAX_DEPTH
      ensures this.db == db && this.hasher == hasher && this.name == name && this.depth == depth && this.size == size
      ensures this.root == (if root.Some? then root.value else ZeroHash(hasher, depth))
      ensures cachedSize == None && cache == map[] && |zeroHashes| == depth && IsZeroHashes(hasher, zeroHashes)
      ensures latest == committed == leaves
      ensures Denotes(db, hasher, name, Meta(this.root, depth, size), leaves) ==> Valid()
    {
      var zs, zeroRoot := ComputeZeroHashes(hasher, depth);
      this.db, this.hasher, this.name, this.depth, this.size := db, hasher, name, depth, size;
      zeroHashes := zs;
      this.root := if root.Some? then root.value else zeroRoot;
      cache, cachedSize := map[], None;
      committed, latest := leaves, leaves;
      new;
      DenotesCoherent(db, hasher, name, Meta(this.root, depth, size), leaves, zeroHashes);
      assert db + map[] == db;
    }

    /** Reads one sibling per level, from the leaves up. */
    method GetSiblingPath(index: nat, includeUncommitted: bool) returns (path: seq<Buffer>)
      requires Valid()
      ensures |path| == depth && IsPath(hasher, Leaves(includeUncommitted), 0, index, path)
      ensures index <= MaxIndex() ==>
        Fold(hasher, index, GetLeafValue(index, includeUncommitted), path) == GetRoot(includeUncommitted)
    {
      hide SubRoot; hide IsPath; hide Fold; hide Shift; hide NodeAt; hide Coherent; hide IsZeroHashes; hide Pow2;
      path := [];
      var level, i := depth, index;
      PathStart(hasher, Leaves(includeUncommitted), index);
      while level > 0
        invariant 0 <= level <= depth && |path| == depth - level && i == Shift(index, |path|)
        invariant IsPath(hasher, Leaves(includeUncommitted), 0, index, path)
      {
        var sibling := GetLatestValueAtIndex(level, if i % 2 == 1 then i - 1 else i + 1, includeUncommitted);
        CoherentAt(hasher, name, zeroHashes, View(includeUncommitted), Leaves(includeUncommitted), level, Sibling(i));
        PathGrows(hasher, Leaves(includeUncommitted), index, path, sibling);
        path := path + [sibling];
        level := level - 1;
        i := i / 2;
      }
      FoldPath(hasher, Leaves(includeUncommitted), 0, index, path);
      ShiftToTop(index, depth);
      LeafIsSubRoot(hasher, Leaves(includeUncommitted), index);
    }

    /** Writes a leaf and rehashes its ancestors; all other nodes are untouched and stay right. */
    method AddLeafToCacheAndHashToRoot(leaf: Buffer, index: nat)
      requires Valid() && index <= MaxIndex()
      modifies this`cache, this`latest
      ensures Valid() && latest == old(latest)[index := leaf]
    {
      hide SubRoot; hide Shift; hide NodeAt; hide PatchedFrom;
      latest := latest[index := leaf];
      PatchLeaf(hasher, name, zeroHashes, db + cache, old(latest), index, leaf);
      WriteThrough(db, cache, NodeKey(name, depth, index), leaf);
      cache := cache[NodeKey(name, depth, index) := leaf];
      var level, i, current := depth, index, leaf;
      while level > 0
        invariant 0 <= level <= depth && i == Shift(index, depth - level)
        invariant latest == old(latest)[index := leaf]
        invariant current == SubRoot(hasher, latest, depth - level, i)
        invariant forall k :: k in cache ==> k.NodeKey? && k.name == name
        invariant NodeKey(name, level, i) in cache && cache[NodeKey(name, level, i)] == current
        invariant PatchedFrom(hasher, name, zeroHashes, db + cache, latest, index, level)
      {
        var isRight := i % 2 == 1;
        var sibling := GetLatestValueAtIndex(level, if isRight then i - 1 else i + 1, true);
        var parent := hasher.compress(if isRight then sibling else current, if isRight then current else sibling);
        PatchParent(hasher, name, zeroHashes, db + cache, latest, index, level, i, current, sibling, parent);
        WriteThrough(db, cache, NodeKey(name, level - 1, i / 2), parent);
        level, i, current := level - 1, i / 2, parent;
        cache := cache[NodeKey(name, level, i) := current];
      }
      PatchedIsCoherent(hasher, name, zeroHashes, db + cache, latest, index);
      ShiftToTop(index, depth);
    }

    method SetCachedSize(newSize: nat)
      requires Valid()
      modifies this`cachedSize
      ensures Valid() && GetNumLeaves(true) == newSize
    {
      cachedSize := Some(newSize);
    }

    /** Writes the metadata of the latest state. */
    method Init()
      requires depth <= MAX_DEPTH
      modifies this`db
      ensures db == old(db)[MetaKey(name) := EncodeMeta(Meta(GetRoot(true), depth, GetNumLeaves(true)))]
      ensures old(Valid()) ==> Valid()
    {
      db := db[MetaKey(name) := EncodeMeta(Meta(GetRoot(true), depth, GetNumLeaves(true)))];
      if old(Valid()) {
        CoherentTransfer(hasher, name, zeroHashes, old(db), db, committed);
        CoherentTransfer(hasher, name, zeroHashes, old(db + cache), db + cache, latest);
      }
    }

    /** The committed view becomes the latest one; other trees' entries in the database stay. */
    method Commit()
      requires Valid()
      modifies this
      ensures Valid() && committed == latest == old(latest) && View(true) == View(false)
      ensures GetRoot(false) == GetRoot(true) == old(GetRoot(true))
      ensures GetNumLeaves(false) == GetNumLeaves(true) == old(GetNumLeaves(true))
      ensures forall l: nat, i: nat, u: bool :: 1 <= l <= depth ==>
        GetLatestValueAtIndex(l, i, u) == old(GetLatestValueAtIndex(l, i, true))
      ensures MetaKey(name) in db && db[MetaKey(name)] == EncodeMeta(Meta(root, depth, size))
      ensures OthersKept(old(db), db, name)
    {
      hide SubRoot; hide EncodeMeta; hide IsZeroHashes; hide Coherent; hide NodeAt; hide CommittedStore; hide OthersKept;
      size := GetNumLeaves(true);
      root := GetRoot(true);
      CommittedCoherent(hasher, name, zeroHashes, db, cache, latest, EncodeMeta(Meta(root, depth, size)));
      db := CommittedStore(db, cache, name, EncodeMeta(Meta(GetRoot(true), depth, GetNumLeaves(true))));
      cache, cachedSize := map[], None;
      committed := latest;
      assert db + cache == db;
    }

    /** The latest view becomes the committed one. */
    method Rollback()
      requires Valid()
      modifies this
      ensures Valid() && latest == committed == old(committed) && db == old(db)
      ensures GetRoot(true) == GetRoot(false) == old(GetRoot(false))
      ensures GetNumLeaves(true) == GetNumLeaves(false) == old(GetNumLeaves(false))
      ensures forall l: nat, i: nat, u: bool :: 1 <= l <= depth ==>
        GetLatestValueAtIndex(l, i, u) == old(GetLatestValueAtIndex(l, i, false))
    {
      cache, cachedSize := map[], None;
      latest := committed;
      assert db + cache == db;
    }
  }

  /** The constructor as callers see it: an unsupported depth throws. */
  method CreateTree(db: Store, hasher: Hasher, name: string, depth: nat, size: nat, root: Option<Buffer>, ghost leaves: LeafMap)
    returns (tree: TreeBase?)
    ensures tree != null <==> 1 <= depth <= 254
    ensures tree != null ==>
      && fresh(tree) && tree.db == db && tree.hasher == hasher && tree.name == name && tree.depth == depth && tree.size == size
      && tree.root == (if root.Some? then root.value else ZeroHash(hasher, depth))
      && tree.cachedSize == None && tree.cache == map[] && |tree.zeroHashes| == depth && IsZeroHashes(hasher, tree.zeroHashes)
      && tree.latest == tree.committed == leaves
      && (Denotes(db, hasher, name, Meta(tree.root, depth, size), leaves) ==> tree.Valid())
  {
    if !(1 <= depth <= MAX_DEPTH) { return null; }
    tree := new TreeBase(db, hasher, name, depth, size, root, leaves);
  }

  /** A new tree; over a database that holds no node of that name it is the empty tree. */
  method NewTree(db: Store, hasher: Hasher, name: string, depth: nat) returns (tree: TreeBase?)
    ensures tree != null <==> 1 <= depth <= 254
    ensures tree != null ==>
      && fresh(tree) && tree.hasher == hasher && tree.depth == depth
      && tree.name == name && tree.size == 0 && tree.cachedSize == None
      && tree.root == ZeroHash(hasher, depth)
      && tree.db == db[MetaKey(name) := EncodeMeta(Meta(tree.root, depth, 0))]
      && (HasNoNodes(db, name) ==> tree.Valid() && tree.latest == tree.committed == map[])
  {
    hide Coherent; hide SubRoot; hide ZeroHash; hide IsZeroHashes; hide Denotes; hide TreeBase.Valid; hide HasNoNodes; hide EncodeMeta;
    tree := CreateTree(db, hasher, name, depth, 0, None, map[]);
    if tree == null { return; }
    if HasNoNodes(db, name) {
      EmptyStoreCoherent(hasher, name, tree.zeroHashes, db);
      EmptySubRoot(hasher, depth, 0);
      DenotesCoherent(db, hasher, name, Meta(tree.root, depth, 0), map[], tree.zeroHashes);
    }
    tree.Init();
  }

  /** Reopens the tree that the metadata under `name` describes; missing or short metadata throws. */
  method LoadTree(db: Store, hasher: Hasher, name: string, ghost leaves: LeafMap) returns (tree: TreeBase?)
    ensures var meta := StoredMeta(db, name);
      && (tree != null <==> meta.Some? && 1 <= meta.value.depth <= MAX_DEPTH)
      && (tree != null ==>
            && fresh(tree) && tree.db == db && tree.name == name && tree.hasher == hasher && tree.depth == meta.value.depth
            && |tree.zeroHashes| == tree.depth && IsZeroHashes(hasher, tree.zeroHashes)
            && tree.latest == tree.committed == leaves
            && (forall u :: tree.GetRoot(u) == meta.value.root && tree.GetNumLeaves(u) == meta.value.size)
            && (forall u :: tree.View(u) == db)
            && (Denotes(db, hasher, name, meta.value, leaves) ==> tree.Valid()))
  {
    if MetaKey(name) !in db { return null; }
    var decoded := DecodeMeta(db[MetaKey(name)]);
    if decoded.None? { return null; }
    var Meta(root, depth, size) := decoded.value;
    tree := CreateTree(db, hasher, name, depth, size, Some(root), leaves);
    if tree != null { assert db + tree.cache == db; }
  }

  function StoredMeta(db: Store, name: string): Option<Meta> {
    if MetaKey(name) in db then DecodeMeta(db[MetaKey(name)]) else None
  }

  /** The nodes and the recorded root stand for `leaves`. */
  ghost predicate Denotes(db: Store, hasher: Hasher, name: string, meta: Meta, leaves: LeafMap) {
    && (exists zs :: |zs| == meta.depth && IsZeroHashes(hasher, zs) && Coherent(hasher, name, zs, db, leaves))
    && meta.root == SubRoot(hasher, leaves, meta.depth, 0)
  }

  lemma DenotesCoherent(db: Store, hasher: Hasher, name: string, meta: Meta, leaves: LeafMap, zeroHashes: seq<Buffer>)
    requires |zeroHashes| == meta.depth && IsZeroHashes(hasher, zeroHashes)
    ensures Denotes(db, hasher, name, meta, leaves) <==>
      Coherent(hasher, name, zeroHashes, db, leaves) && meta.root == SubRoot(hasher, leaves, meta.depth, 0)
  {
    if zs :| |zs| == meta.depth && IsZeroHashes(hasher, zs) && Coherent(hasher, name, zs, db, leaves) {
      assert zs == zeroHashes;
    }
  }

  /** What reloading promises: with a 32-byte hasher, loading the database of a tree just committed gives a
      tree with the same root, depth, size and nodes. */
  method CommitAndReload(tree: TreeBase) returns (reloaded: TreeBase?)
    requires tree.Valid()
    requires forall a, b :: |tree.hasher.compress(a, b)| == 32
    requires tree.GetNumLeaves(true) < Pow16(64)
    modifies tree
    ensures tree.Valid() && tree.committed == tree.latest == old(tree.latest)
    ensures reloaded != null && reloaded.Valid() && reloaded.depth == tree.depth
    ensures reloaded.latest == reloaded.committed == tree.latest
    ensures forall u :: reloaded.GetRoot(u) == old(tree.GetRoot(true)) == tree.GetRoot(u)
    ensures forall u :: reloaded.GetNumLeaves(u) == old(tree.GetNumLeaves(true)) == tree.GetNumLeaves(u)
    ensures forall l: nat, i: nat, u: bool :: 1 <= l <= tree.depth && l <= |reloaded.zeroHashes| && l <= |tree.zeroHashes| ==>
      reloaded.GetLatestValueAtIndex(l, i, u) == tree.GetLatestValueAtIndex(l, i, true)
  {
    hide SubRoot; hide Pow16; hide EncodeMeta; hide DecodeMeta; hide Coherent; hide IsZeroHashes; hide Denotes; hide NodeAt;
    tree.Commit();
    ghost var meta := Meta(tree.root, tree.depth, tree.size);
    RootLength(tree.hasher, tree.committed, tree.depth);
    MetaRoundTrip(meta);
    assert StoredMeta(tree.db, tree.name) == Some(meta);
    DenotesCoherent(tree.db, tree.hasher, tree.name, meta, tree.committed, tree.zeroHashes);
    reloaded := LoadTree(tree.db, tree.hasher, tree.name, tree.committed);
    SameZeroHashes(tree.hasher, reloaded.zeroHashes, tree.zeroHashes);
  }

  lemma SameZeroHashes(h: Hasher, a: seq<Buffer>, b: seq<Buffer>)
    requires IsZeroHashes(h, a) && IsZeroHashes(h, b) && |a| == |b|
    ensures a == b
  {
  }

  lemma RootLength(h: Hasher, leaves: LeafMap, depth: nat)
    requires depth >= 1 && forall a, b :: |h.compress(a, b)| == 32
    ensures |SubRoot(h, leaves, depth, 0)| == 32
  {
    var l, r := SubRoot(h, leaves, depth - 1, 0), SubRoot(h, leaves, depth - 1, 1);
    assert |h.compress(l, r)| == 32;
  }
}
