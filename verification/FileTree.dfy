/** The directory tree that a torrent's file list is browsed through. */
module FileTree {
  import opened Prelude

  type Title = string
  type Path = seq<Title>

  /** `parent` is set for all nodes but the root, `file` for leaves only. */
  datatype Node = Node(title: Title, parent: Option<nat>, children: seq<nat>, file: Option<nat>)

  // ---- Object ids -------------------------------------------------------------------

  /** The local node id above the low sixteen bits, the torrent id plus one in them. */
  function EncodeId(localId: bv64, torrentId: bv64): bv64 {
    (localId << 16) | (torrentId + 1)
  }

  function DecodeId(id: bv64): Result<(bv64, bv64)> {
    var torrentId := id & 0xffff;
    if torrentId == 0 then Err("invalid id") else Ok((id >> 16, torrentId - 1))
  }

  /** Ids round-trip exactly when both parts fit their fields, and each part then has its own bits. */
  lemma IdsRoundTrip(localId: bv64, torrentId: bv64)
    ensures DecodeId(EncodeId(localId, torrentId)) == Ok((localId, torrentId))
       <==> torrentId < 0xffff && localId < 0x1_0000_0000_0000
    ensures torrentId < 0xffff && localId < 0x1_0000_0000_0000 ==>
      EncodeId(localId, torrentId) >> 16 == localId && EncodeId(localId, torrentId) & 0xffff == torrentId + 1
  {
  }

  // ---- What a faithful tree is ------------------------------------------------------

  /** Titles from below the root down to node `id`. */
  ghost function PathOf(nodes: seq<Node>, id: nat): Path
    requires id < |nodes|
    decreases id
  {
    match nodes[id].parent
    case None => []
    case Some(p) => if p < id then PathOf(nodes, p) + [nodes[id].title] else []
  }

  /** Every node but the root hangs below an earlier node, and links mirror each other. */
  ghost predicate LinkedUp(nodes: seq<Node>, i: nat)
    requires i < |nodes|
  {
    if i == 0 then nodes[0].parent.None?
    else nodes[i].parent.Some? && nodes[i].parent.value < i && i in nodes[nodes[i].parent.value].children
  }

  ghost predicate LinkedDown(nodes: seq<Node>, i: nat)
    requires i < |nodes|
  {
    && (forall c :: c in nodes[i].children ==> c < |nodes| && nodes[c].parent == Some(i))
    && (forall a, b :: 0 <= a < b < |nodes[i].children| ==> nodes[i].children[a] < nodes[i].children[b])
    && (nodes[i].file.Some? ==> nodes[i].children == [])
  }

  /** `cache` finds exactly the directories, by parent and title. */
  ghost predicate CacheExact(nodes: seq<Node>, cache: map<(nat, Title), nat>) {
    && (forall k :: k in cache ==>
          && 0 < cache[k] < |nodes|
          && nodes[cache[k]].parent == Some(k.0) && nodes[cache[k]].title == k.1 && nodes[cache[k]].file.None?)
    && (forall i :: 0 < i < |nodes| && nodes[i].file.None? ==> IsCached(nodes, cache, i))
  }

  ghost predicate IsCached(nodes: seq<Node>, cache: map<(nat, Title), nat>, i: nat)
    requires i < |nodes|
  {
    && nodes[i].parent.Some?
    && (nodes[i].parent.value, nodes[i].title) in cache
    && cache[(nodes[i].parent.value, nodes[i].title)] == i
  }

  ghost predicate IsTree(nodes: seq<Node>) {
    && |nodes| > 0
    && (forall i :: 0 <= i < |nodes| ==> LinkedUp(nodes, i))
    && (forall i :: 0 <= i < |nodes| ==> LinkedDown(nodes, i))
  }

  /** Node `id` is the leaf of file `f`. */
  predicate IsLeafOf(nodes: seq<Node>, id: nat, f: nat) {
    id < |nodes| && nodes[id].file == Some(f)
  }

  /** Of the first `k` files, each with a non-empty path has exactly one leaf, which spells its
      path; no other leaf exists. */
  ghost predicate LeavesExact(nodes: seq<Node>, files: seq<Path>, k: nat)
    requires k <= |files|
  {
    && (forall f :: 0 <= f < k && files[f] != [] ==> exists id: nat :: IsLeafOf(nodes, id, f))
    && (forall id: nat, f: nat :: IsLeafOf(nodes, id, f) ==> f < k && files[f] != [] && PathOf(nodes, id) == files[f])
    && (forall a: nat, b: nat, f: nat :: IsLeafOf(nodes, a, f) && IsLeafOf(nodes, b, f) ==> a == b)
  }

  /** Every directory but the root and `except` contains something. */
  ghost predicate NoEmptyDirs(nodes: seq<Node>, except: nat) {
    forall i :: 0 < i < |nodes| && i != except && nodes[i].file.None? ==> nodes[i].children != []
  }

  // ---- Growing the tree -------------------------------------------------------------

  /** Append a childless node below `parent`. */
  ghost predicate Appended(nodes: seq<Node>, nodes': seq<Node>, title: Title, parent: nat, file: Option<nat>) {
    && parent < |nodes| && |nodes'| == |nodes| + 1
    && nodes'[|nodes|] == Node(title, Some(parent), [], file)
    && (forall i :: 0 <= i < |nodes| ==>
          nodes'[i] == if i == parent then nodes[i].(children := nodes[i].children + [|nodes|]) else nodes[i])
  }

  lemma AppendKeepsTree(nodes: seq<Node>, nodes': seq<Node>, title: Title, parent: nat, file: Option<nat>)
    requires IsTree(nodes) && Appended(nodes, nodes', title, parent, file) && nodes[parent].file.None?
    ensures IsTree(nodes')
  {
    forall i | 0 <= i < |nodes'|
      ensures LinkedUp(nodes', i)
    {
      if i < |nodes| {
        assert LinkedUp(nodes, i);
      } else {
        assert nodes'[parent].children[|nodes[parent].children|] == i;
      }
    }
    forall i | 0 <= i < |nodes'|
      ensures LinkedDown(nodes', i)
    {
      if i < |nodes| {
        assert LinkedDown(nodes, i);
        forall a | 0 <= a < |nodes[i].children|
          ensures nodes[i].children[a] < |nodes|
        {
          assert nodes[i].children[a] in nodes[i].children;
        }
      }
    }
  }

  lemma {:induction false} AppendKeepsPath(nodes: seq<Node>, nodes': seq<Node>, title: Title, parent: nat,
      file: Option<nat>, id: nat)
    requires Appended(nodes, nodes', title, parent, file) && id < |nodes|
    ensures PathOf(nodes', id) == PathOf(nodes, id)
    decreases id
  {
    assert nodes'[id].parent == nodes[id].parent && nodes'[id].title == nodes[id].title;
    match nodes[id].parent
    case None =>
    case Some(p) =>
      if p < id {
        AppendKeepsPath(nodes, nodes', title, parent, file, p);
      }
  }

  lemma AppendedPath(nodes: seq<Node>, nodes': seq<Node>, title: Title, parent: nat, file: Option<nat>)
    requires Appended(nodes, nodes', title, parent, file)
    ensures PathOf(nodes', |nodes|) == PathOf(nodes, parent) + [title]
  {
    AppendKeepsPath(nodes, nodes', title, parent, file, parent);
  }

  /** Adding a directory leaves the leaves as they were. */
  lemma AppendDirKeepsLeaves(nodes: seq<Node>, nodes': seq<Node>, title: Title, parent: nat, files: seq<Path>, k: nat)
    requires k <= |files| && LeavesExact(nodes, files, k) && Appended(nodes, nodes', title, parent, None)
    ensures LeavesExact(nodes', files, k)
  {
    forall id: nat, f: nat | IsLeafOf(nodes', id, f)
      ensures IsLeafOf(nodes, id, f) && PathOf(nodes', id) == PathOf(nodes, id)
    {
      assert id < |nodes|;
      AppendKeepsPath(nodes, nodes', title, parent, None, id);
    }
    forall f | 0 <= f < k && files[f] != []
      ensures exists id: nat :: IsLeafOf(nodes', id, f)
    {
      var id :| IsLeafOf(nodes, id, f);
      assert IsLeafOf(nodes', id, f);
    }
  }

  /** Adding the leaf of the next file below the node of its directory. */
  lemma AppendLeaf(nodes: seq<Node>, nodes': seq<Node>, title: Title, parent: nat, files: seq<Path>, k: nat)
    requires k < |files| && LeavesExact(nodes, files, k) && Appended(nodes, nodes', title, parent, Some(k))
    requires files[k] == PathOf(nodes, parent) + [title]
    ensures LeavesExact(nodes', files, k + 1)
  {
    AppendedPath(nodes, nodes', title, parent, Some(k));
    forall id: nat, f: nat | IsLeafOf(nodes', id, f)
      ensures if id < |nodes| then IsLeafOf(nodes, id, f) && f < k && PathOf(nodes', id) == PathOf(nodes, id)
              else f == k
    {
      if id < |nodes| {
        assert IsLeafOf(nodes, id, f);
        AppendKeepsPath(nodes, nodes', title, parent, Some(k), id);
      }
    }
    forall f | 0 <= f < k + 1 && files[f] != []
      ensures exists id: nat :: IsLeafOf(nodes', id, f)
    {
      if f < k {
        var id :| IsLeafOf(nodes, id, f);
        assert IsLeafOf(nodes', id, f);
      } else {
        assert IsLeafOf(nodes', |nodes|, f);
      }
    }
  }

  // ---- Building ---------------------------------------------------------------------

  /** At most one path component in the whole torrent. */
  function ComponentCount(files: seq<Path>): nat {
    if files == [] then 0 else |files[0]| + ComponentCount(files[1..])
  }

  predicate IsSingleFileAtRoot(files: seq<Path>) {
    ComponentCount(files) < 2
  }

  /** No path has two components, and at most one has any. */
  ghost predicate AtMostOneComponent(files: seq<Path>) {
    && (forall f :: 0 <= f < |files| ==> |files[f]| <= 1)
    && (forall f, g :: 0 <= f < g < |files| ==> files[f] == [] || files[g] == [])
  }

  lemma {:induction false} NoComponents(files: seq<Path>)
    ensures ComponentCount(files) == 0 <==> forall f :: 0 <= f < |files| ==> files[f] == []
  {
    if files != [] {
      NoComponents(files[1..]);
      assert forall f :: 0 < f < |files| ==> files[f] == files[1..][f - 1];
    }
  }

  /** A torrent counts as a single file exactly when no path has two components and at most one is
      non-empty. */
  lemma {:induction false} SingleFileExactly(files: seq<Path>)
    ensures IsSingleFileAtRoot(files) <==> AtMostOneComponent(files)
  {
    if files != [] {
      var rest := files[1..];
      SingleFileExactly(rest);
      NoComponents(rest);
      assert forall f :: 0 < f < |files| ==> files[f] == rest[f - 1];
    }
  }

  /** What a leaf spells: its path below the root, or, if it is the root itself, its title. */
  ghost function Spelled(nodes: seq<Node>, id: nat): Path
    requires id < |nodes|
  {
    if nodes[id].parent.None? then [nodes[id].title] else PathOf(nodes, id)
  }

  /** Each file with a path has exactly one leaf, which spells it; there is no other leaf. */
  ghost predicate LeavesSpellPaths(nodes: seq<Node>, files: seq<Path>) {
    && (forall f :: 0 <= f < |files| && files[f] != [] ==> exists id: nat :: IsLeafOf(nodes, id, f))
    && (forall id: nat, f: nat :: IsLeafOf(nodes, id, f) ==>
          && f < |files| && files[f] != [] && Spelled(nodes, id) == files[f]
          && nodes[id].title == files[f][|files[f]| - 1])
    && (forall a: nat, b: nat, f: nat :: IsLeafOf(nodes, a, f) && IsLeafOf(nodes, b, f) ==> a == b)
  }

  lemma BuiltLeavesSpell(nodes: seq<Node>, files: seq<Path>)
    requires IsTree(nodes) && nodes[0].file.None? && LeavesExact(nodes, files, |files|)
    ensures LeavesSpellPaths(nodes, files)
  {
    forall id: nat, f: nat | IsLeafOf(nodes, id, f)
      ensures Spelled(nodes, id) == files[f] && nodes[id].title == files[f][|files[f]| - 1]
    {
      assert LinkedUp(nodes, id);
    }
  }

  class TorrentFileTree {
    var nodes: seq<Node>
    var nameCache: map<(nat, Title), nat>

    constructor (root: Node)
      ensures nodes == [root] && nameCache == map[]
    {
      nodes, nameCache := [root], map[];
    }

    /** Tree, cache and leaves agree after the first `k` files. */
    ghost predicate Built(files: seq<Path>, k: nat)
      requires k <= |files|
      reads this
    {
      IsTree(nodes) && nodes[0].file.None? && CacheExact(nodes, nameCache) && LeavesExact(nodes, files, k)
    }

    method Push(title: Title, parent: nat, file: Option<nat>) returns (id: nat)
      requires parent < |nodes|
      modifies this`nodes
      ensures id == |old(nodes)| && Appended(old(nodes), nodes, title, parent, file)
    {
      id := |nodes|;
      nodes := nodes + [Node(title, Some(parent), [], file)];
      nodes := nodes[parent := nodes[parent].(children := nodes[parent].children + [id])];
    }

    /** Find the directory `title` below `parent`, or create it. */
    method Enter(title: Title, parent: nat, ghost files: seq<Path>, ghost k: nat) returns (id: nat)
      requires k <= |files| && Built(files, k)
      requires parent < |nodes| && nodes[parent].file.None? && NoEmptyDirs(nodes, parent)
      modifies this
      ensures Built(files, k) && NoEmptyDirs(nodes, id) && nodes[0].title == old(nodes[0].title)
      ensures id < |nodes| && nodes[id].file.None? && PathOf(nodes, id) == old(PathOf(nodes, parent)) + [title]
    {
      if (parent, title) in nameCache {
        id := nameCache[(parent, title)];
        assert LinkedUp(nodes, id);
        return;
      }
      ghost var before := nodes;
      id := Push(title, parent, None);
      nameCache := nameCache[(parent, title) := id];
      AppendKeepsTree(before, nodes, title, parent, None);
      AppendDirKeepsLeaves(before, nodes, title, parent, files, k);
      AppendedPath(before, nodes, title, parent, None);
      CacheGrows(before, nodes, old(nameCache), title, parent);
    }

    /** Walk down the directories of a path, creating what is missing, and add the leaf. */
    method AddFile(files: seq<Path>, k: nat)
      requires k < |files| && Built(files, k) && NoEmptyDirs(nodes, 0)
      modifies this
      ensures Built(files, k + 1) && NoEmptyDirs(nodes, 0) && nodes[0].title == old(nodes[0].title)
    {
      var path := files[k];
      var parent: nat, i: nat := 0, 0;
      while i + 1 < |path|
        invariant i == 0 || i < |path|
        invariant i == 0 ==> parent == 0
        invariant Built(files, k) && nodes[0].title == old(nodes[0].title)
        invariant parent < |nodes| && nodes[parent].file.None? && NoEmptyDirs(nodes, parent)
        invariant PathOf(nodes, parent) == path[..i]
      {
        parent := Enter(path[i], parent, files, k);
        i := i + 1;
      }
      if i < |path| {
        ghost var before := nodes;
        var _ := Push(path[i], parent, Some(k));
        assert path == path[..i] + [path[i]];
        AppendKeepsTree(before, nodes, path[i], parent, Some(k));
        AppendLeaf(before, nodes, path[i], parent, files, k);
        LeafKeepsCache(before, nodes, nameCache, path[i], parent, k);
      }
    }

    /** Build the tree. A torrent with a single component is just its file; the program assumes
        that component belongs to the first file. */
    static method Build(torrentName: Title, files: seq<Path>) returns (t: TorrentFileTree)
      requires IsSingleFileAtRoot(files) ==> files != [] && files[0] != []
      ensures fresh(t) && IsTree(t.nodes) && LeavesSpellPaths(t.nodes, files)
      ensures AtMostOneComponent(files) ==>
        && files[0] == [t.nodes[0].title] && |t.nodes| == 1
        && (forall f :: 0 < f < |files| ==> files[f] == [])
      ensures !AtMostOneComponent(files) ==> t.nodes[0].title == torrentName && t.nodes[0].file.None?
      ensures IsSingleFileAtRoot(files) ==> t.nodes == [Node(files[0][|files[0]| - 1], None, [], Some(0))]
      ensures !IsSingleFileAtRoot(files) ==>
        && LeavesExact(t.nodes, files, |files|) && SiblingDirsDiffer(t.nodes)
        && NoEmptyDirs(t.nodes, 0) && t.nodes[0].title == torrentName
    {
      SingleFileExactly(files);
      if IsSingleFileAtRoot(files) {
        assert files[0] == [files[0][|files[0]| - 1]];
        t := new TorrentFileTree(Node(files[0][|files[0]| - 1], None, [], Some(0)));
        assert LinkedUp(t.nodes, 0) && LinkedDown(t.nodes, 0);
        assert IsLeafOf(t.nodes, 0, 0);
        return;
      }
      t := new TorrentFileTree(Node(torrentName, None, [], None));
      assert LinkedUp(t.nodes, 0) && LinkedDown(t.nodes, 0);
      for k := 0 to |files|
        invariant fresh(t) && t.Built(files, k) && NoEmptyDirs(t.nodes, 0) && t.nodes[0].title == torrentName
      {
        t.AddFile(files, k);
      }
      BuiltLeavesSpell(t.nodes, files);
      CacheSeparates(t.nodes, t.nameCache);
    }
  }

  predicate SameDir(a: Node, b: Node) {
    a.file.None? && b.file.None? && a.parent == b.parent && a.title == b.title
  }

  /** No two directories below the same parent share a title. */
  ghost predicate SiblingDirsDiffer(nodes: seq<Node>) {
    forall a, b :: 0 < a < |nodes| && 0 < b < |nodes| && SameDir(nodes[a], nodes[b]) ==> a == b
  }

  lemma CacheSeparates(nodes: seq<Node>, cache: map<(nat, Title), nat>)
    requires CacheExact(nodes, cache)
    ensures SiblingDirsDiffer(nodes)
  {
    forall a, b | 0 < a < |nodes| && 0 < b < |nodes| && SameDir(nodes[a], nodes[b])
      ensures a == b
    {
      assert IsCached(nodes, cache, a) && IsCached(nodes, cache, b);
    }
  }

  lemma CacheGrows(nodes: seq<Node>, nodes': seq<Node>, cache: map<(nat, Title), nat>, title: Title, parent: nat)
    requires CacheExact(nodes, cache) && (parent, title) !in cache
    requires Appended(nodes, nodes', title, parent, None)
    ensures CacheExact(nodes', cache[(parent, title) := |nodes|])
  {
    var cache' := cache[(parent, title) := |nodes|];
    forall i | 0 < i < |nodes'| && nodes'[i].file.None?
      ensures IsCached(nodes', cache', i)
    {
      if i < |nodes| {
        assert IsCached(nodes, cache, i);
      }
    }
  }

  lemma LeafKeepsCache(nodes: seq<Node>, nodes': seq<Node>, cache: map<(nat, Title), nat>, title: Title, parent: nat,
      f: nat)
    requires CacheExact(nodes, cache) && Appended(nodes, nodes', title, parent, Some(f))
    ensures CacheExact(nodes', cache)
  {
    forall i | 0 < i < |nodes'| && nodes'[i].file.None?
      ensures IsCached(nodes', cache, i)
    {
      assert IsCached(nodes, cache, i);
    }
  }
}
