/** The full-binary-tree committee overlay of the simulator
    (simulations/src/overlay/tree.rs). Committees are numbered breadth first:
    committee 0 is the root and committee i has children 2i+1 and 2i+2. The
    random choice of the participating nodes (`choose_multiple`) is an input:
    the sequence `chosen` of the picked node ids, in the order drawn. */
module TreeOverlay {
  import opened SimNode

  datatype TreeType = FullBinaryTree

  datatype TreeSettings = TreeSettings(treeType: TreeType, committeeSize: nat, depth: nat)

  datatype TreeProperties = TreeProperties(committeeCount: nat, nodeCount: nat)

  /** The role of a committee in a round. `Leader` stands for every role
      other than the three the tree assigns. */
  datatype CarnotRole = Root | Intermediate | Leaf | Leader

  datatype Committee = Committee(nodes: seq<NodeId>, role: CarnotRole)

  /** The overlay's layout: committees by id, the parent and the children of
      each committee, and the committee ids of each layer. */
  datatype Layout = Layout(
    committees: map<nat, Committee>,
    parent: map<nat, nat>,
    children: map<nat, seq<nat>>,
    layers: map<nat, seq<nat>>)

  function Pow2(k: nat): (r: nat)
    ensures r >= 1
  {
    if k == 0 then 1 else 2 * Pow2(k - 1)
  }

  lemma {:induction false} Pow2Monotone(j: nat, k: nat)
    requires j <= k
    ensures Pow2(j) <= Pow2(k)
  {
    if j < k {
      Pow2Monotone(j, k - 1);
    }
  }

  /** The number of committees in a layer-by-layer count: layer k of a full
      binary tree holds 2^k committees. */
  function LayerSizesSum(depth: nat): nat
  {
    if depth == 0 then 0 else LayerSizesSum(depth - 1) + Pow2(depth - 1)
  }

  /** `committee_count`: the number of committees of a full binary tree whose
      depth counts the root layer, `(1 << depth) - 1`. */
  function CommitteeCount(depth: nat): nat
  {
    Pow2(depth) - 1
  }

  /** The closed form agrees with counting the committees layer by layer. */
  lemma {:induction false} CommitteeCountIsLayerSum(depth: nat)
    ensures CommitteeCount(depth) == LayerSizesSum(depth)
  {
    if depth > 0 {
      CommitteeCountIsLayerSum(depth - 1);
    }
  }

  /** The test's example: ten layers hold 1023 committees. */
  lemma CommitteeCountDepthTen()
    ensures CommitteeCount(10) == 1023
  {
  }

  /** `get_tree_properties`: the committee count of the depth, and enough nodes
      to give every committee `committee_size` of them. */
  function GetTreeProperties(settings: TreeSettings): (p: TreeProperties)
    ensures p.committeeCount + 1 == Pow2(settings.depth)
    ensures p.nodeCount == p.committeeCount * settings.committeeSize
  {
    var committeeCount := CommitteeCount(settings.depth);
    TreeProperties(committeeCount, committeeCount * settings.committeeSize)
  }

  /** `get_parent_id`: the parent of a non-root committee is the committee
      whose left or right child it is. */
  function GetParentId(id: nat): (p: nat)
    requires id > 0
    ensures id == 2 * p + 1 || id == 2 * p + 2
  {
    (id - 1 + id % 2) / 2
  }

  /** Both children of committee p have p as their parent, and p is the only
      committee with that property. */
  lemma ParentOfChildren(p: nat, c: nat)
    requires c > 0
    ensures GetParentId(c) == p <==> c == 2 * p + 1 || c == 2 * p + 2
  {
  }

  /** Integer base-2 logarithm, rounded down. */
  function Log2(n: nat): (r: nat)
    requires n >= 1
    ensures Pow2(r) <= n < Pow2(r + 1)
  {
    if n == 1 then 0 else 1 + Log2(n / 2)
  }

  /** `get_layer`: the layer of committee id is floor(log2(id + 1)); layer k
      spans the ids 2^k - 1 to 2^(k+1) - 2. */
  function GetLayer(id: nat): (k: nat)
    ensures Pow2(k) - 1 <= id < Pow2(k + 1) - 1
  {
    Log2(id + 1)
  }

  /** The layer of an id is the only k whose span contains it. */
  lemma LayerUnique(id: nat, k: nat)
    requires Pow2(k) - 1 <= id < Pow2(k + 1) - 1
    ensures GetLayer(id) == k
  {
    var l := GetLayer(id);
    if l < k {
      Pow2Monotone(l + 1, k);
    } else if l > k {
      Pow2Monotone(k + 1, l);
    }
  }

  /** The ids lo, lo+1, ..., hi-1. */
  function Range(lo: nat, hi: nat): (r: seq<nat>)
    requires lo <= hi
    ensures |r| == hi - lo
    ensures forall j :: 0 <= j < |r| ==> r[j] == lo + j
  {
    seq(hi - lo, j requires 0 <= j < hi - lo => lo + j)
  }

  function Min(a: nat, b: nat): nat
  {
    if a < b then a else b
  }

  /** `TreeOverlay::nodes`: the node ids 0 .. node_count, in order. */
  function Nodes(settings: TreeSettings): (r: seq<NodeId>)
    ensures |r| == GetTreeProperties(settings).nodeCount
    ensures forall i :: 0 <= i < |r| ==> r[i].Inner() == i
  {
    var n := GetTreeProperties(settings).nodeCount;
    seq(n, i requires 0 <= i < n => NodeIdFrom(i))
  }

  /** Committee i of the layout holds the i-th run of `size` chosen nodes. */
  predicate IsChunk(c: seq<NodeId>, chosen: seq<NodeId>, size: nat, i: nat)
  {
    (i + 1) * size <= |chosen| && c == chosen[i * size..(i + 1) * size]
  }

  /** The part of layer k that holds ids below i. */
  function LayerSpan(k: nat, i: nat): seq<nat>
    requires Pow2(k) - 1 <= i
  {
    Range(Pow2(k) - 1, Min(Pow2(k + 1) - 1, i))
  }

  /** The layers map after committees 0 .. i-1 have been filed: every layer
      that has started holds its ids below i, in increasing order. */
  ghost predicate LayersUpTo(layers: map<nat, seq<nat>>, depth: nat, i: nat)
  {
    forall k: nat {:trigger k in layers} ::
      && (k in layers <==> k < depth && Pow2(k) - 1 < i)
      && (k in layers ==> Pow2(k) - 1 <= i && layers[k] == LayerSpan(k, i))
  }

  /** `layers.entry(get_layer(id)).or_insert_with(Vec::new).push(id)`. */
  function FileInLayer(layers: map<nat, seq<nat>>, id: nat): map<nat, seq<nat>>
  {
    var k := GetLayer(id);
    layers[k := (if k in layers then layers[k] else []) + [id]]
  }

  /** Filing id i leaves the part of every other layer unchanged. */
  lemma SpanOfOtherLayer(k: nat, i: nat)
    requires Pow2(k) - 1 <= i
    requires GetLayer(i) != k
    ensures LayerSpan(k, i + 1) == LayerSpan(k, i)
  {
    if Pow2(k) - 1 <= i < Pow2(k + 1) - 1 {
      LayerUnique(i, k);
    }
  }

  /** Filing id i appends it to the part of its own layer. */
  lemma SpanOfOwnLayer(i: nat)
    ensures Pow2(GetLayer(i)) - 1 <= i
    ensures LayerSpan(GetLayer(i), i + 1) ==
      (if Pow2(GetLayer(i)) - 1 < i then LayerSpan(GetLayer(i), i) else []) + [i]
  {
    var k := GetLayer(i);
    if Pow2(k) - 1 < i {
      assert LayerSpan(k, i + 1) == LayerSpan(k, i) + [i];
    }
  }

  /** Filing committee i keeps the layers in order. */
  lemma FileInLayerStep(layers: map<nat, seq<nat>>, depth: nat, i: nat)
    requires LayersUpTo(layers, depth, i)
    requires i < CommitteeCount(depth)
    ensures LayersUpTo(FileInLayer(layers, i), depth, i + 1)
  {
    var l := GetLayer(i);
    var layers' := FileInLayer(layers, i);
    if l >= depth {
      Pow2Monotone(depth, l);
      assert false;
    }
    SpanOfOwnLayer(i);
    forall k: nat
      ensures k in layers' <==> k < depth && Pow2(k) - 1 < i + 1
      ensures k in layers' ==> Pow2(k) - 1 <= i + 1 && layers'[k] == LayerSpan(k, i + 1)
    {
      if k != l {
        if Pow2(k) - 1 == i {
          LayerUnique(i, k);
        }
        if k in layers {
          SpanOfOtherLayer(k, i);
        }
      }
    }
  }

  /** Once every committee of a tree of the given depth is filed, layer k is
      exactly 2^k - 1 .. 2^(k+1) - 2. */
  lemma LayersComplete(layers: map<nat, seq<nat>>, depth: nat)
    requires LayersUpTo(layers, depth, CommitteeCount(depth))
    ensures forall k: nat :: k in layers <==> k < depth
    ensures forall k :: k in layers ==> layers[k] == Range(Pow2(k) - 1, Pow2(k + 1) - 1)
  {
    forall k: nat {:trigger k in layers} | k < depth
      ensures k in layers
      ensures Min(Pow2(k + 1) - 1, CommitteeCount(depth)) == Pow2(k + 1) - 1
    {
      Pow2Monotone(k + 1, depth);
    }
  }

  /** The i-th run of `size` nodes lies within the `count` runs. */
  lemma ChunkFits(i: nat, count: nat, size: nat)
    requires i < count
    ensures (i + 1) * size == i * size + size
    ensures (i + 1) * size <= count * size
  {
    assert count * size == (i + 1) * size + (count - i - 1) * size;
  }

  /** The children and parent maps after committees 0 .. i-1 are filed. */
  ghost predicate LinksUpTo(parents: map<nat, nat>, children: map<nat, seq<nat>>, count: nat, i: nat)
  {
    && (forall c: nat :: c in children <==> c < i && 2 * c + 2 <= count)
    && (forall c :: c in children ==> children[c] == [2 * c + 1, 2 * c + 2])
    && (forall c: nat :: c in parents <==> 0 < c < i)
    && (forall c :: c in parents ==> c > 0 && (c == 2 * parents[c] + 1 || c == 2 * parents[c] + 2))
  }

  /** The committees map after committees 0 .. i-1 are filed. */
  ghost predicate CommitteesUpTo(committees: map<nat, Committee>, chosen: seq<NodeId>,
                                 size: nat, count: nat, i: nat)
  {
    && (forall c: nat :: c in committees <==> c < i)
    && (forall c :: 0 <= c < i ==> IsChunk(committees[c].nodes, chosen, size, c))
    && (forall c :: c in committees ==>
          committees[c].role == RoleOf(count, c))
  }

  /** The children map once committee i is filed: `[2i+1, 2i+2]` when both
      children exist. */
  function WithChildren(children: map<nat, seq<nat>>, count: nat, i: nat): map<nat, seq<nat>>
  {
    if 2 * i + 2 <= count then children[i := [2 * i + 1, 2 * i + 2]] else children
  }

  /** The parent map once committee i is filed: every committee but the root
      records its parent. */
  function WithParent(parents: map<nat, nat>, i: nat): map<nat, nat>
  {
    if i > 0 then parents[i := GetParentId(i)] else parents
  }

  /** The role of committee i among `count` committees: the root, an
      intermediate committee when both its children exist, else a leaf. */
  function RoleOf(count: nat, i: nat): CarnotRole
  {
    if i == 0 then Root else if 2 * i + 2 <= count then Intermediate else Leaf
  }

  /** Filing committee i: its children if 2i+2 does not pass the count, its
      parent unless it is the root. */
  lemma LinksStep(parents: map<nat, nat>, children: map<nat, seq<nat>>, count: nat, i: nat)
    requires LinksUpTo(parents, children, count, i)
    ensures LinksUpTo(WithParent(parents, i), WithChildren(children, count, i), count, i + 1)
  {
  }

  /** Filing committee i: its run of nodes and its role. */
  lemma CommitteesStep(committees: map<nat, Committee>, chosen: seq<NodeId>, size: nat, count: nat, i: nat)
    requires CommitteesUpTo(committees, chosen, size, count, i)
    requires (i + 1) * size == i * size + size <= |chosen|
    ensures CommitteesUpTo(
      committees[i := Committee(chosen[i * size..i * size + size], RoleOf(count, i))],
      chosen, size, count, i + 1)
  {
  }

  /** One round of the loop of `build_full_binary_tree`: files committee
      `committeeId` with its run of nodes, its children, its parent, its role
      and its layer. */
  method FileCommittee(committees: map<nat, Committee>, parents: map<nat, nat>,
                       children: map<nat, seq<nat>>, layers: map<nat, seq<nat>>,
                       chosen: seq<NodeId>, size: nat, count: nat, committeeId: nat)
    returns (committees': map<nat, Committee>, parents': map<nat, nat>,
             children': map<nat, seq<nat>>, layers': map<nat, seq<nat>>)
    requires committeeId < count
    requires |chosen| == count * size
    ensures (committeeId + 1) * size == committeeId * size + size <= |chosen|
    ensures children' == WithChildren(children, count, committeeId)
    ensures parents' == WithParent(parents, committeeId)
    ensures committees' == committees[committeeId :=
      Committee(chosen[committeeId * size..committeeId * size + size], RoleOf(count, committeeId))]
    ensures layers' == FileInLayer(layers, committeeId)
  {
    ChunkFits(committeeId, count, size);
    var start := committeeId * size;
    var nodes := chosen[start..start + size];
    var hasChildren := false;
    var leftChildId := 2 * committeeId + 1;
    var rightChildId := leftChildId + 1;
    children' := children;
    if rightChildId <= count {
      children' := children'[committeeId := [leftChildId, rightChildId]];
      hasChildren := true;
    }
    parents' := parents;
    if committeeId > 0 {
      parents' := parents'[committeeId := GetParentId(committeeId)];
    }
    var role := if committeeId == 0 then Root else if hasChildren then Intermediate else Leaf;
    committees' := committees[committeeId := Committee(nodes, role)];
    layers' := FileInLayer(layers, committeeId);
  }

  /** A layout built from `chosen` for the settings: every committee is filed
      with its run of nodes, its role, its children and its parent, and every
      layer holds exactly its span of ids. */
  ghost predicate IsFullBinaryTree(layout: Layout, chosen: seq<NodeId>, settings: TreeSettings)
  {
    var count := CommitteeCount(settings.depth);
    && LinksUpTo(layout.parent, layout.children, count, count)
    && CommitteesUpTo(layout.committees, chosen, settings.committeeSize, count, count)
    && (forall k: nat :: k in layout.layers <==> k < settings.depth)
    && (forall k :: k in layout.layers ==> layout.layers[k] == Range(Pow2(k) - 1, Pow2(k + 1) - 1))
  }

  /** Before the loop nothing is filed. */
  lemma NothingFiled(chosen: seq<NodeId>, size: nat, count: nat, depth: nat)
    ensures LinksUpTo(map[], map[], count, 0)
    ensures CommitteesUpTo(map[], chosen, size, count, 0)
    ensures LayersUpTo(map[], depth, 0)
  {
  }

  /** After the loop every committee is filed. */
  lemma AllFiled(committees: map<nat, Committee>, parents: map<nat, nat>,
                 children: map<nat, seq<nat>>, layers: map<nat, seq<nat>>,
                 chosen: seq<NodeId>, settings: TreeSettings)
    requires LinksUpTo(parents, children, CommitteeCount(settings.depth), CommitteeCount(settings.depth))
    requires CommitteesUpTo(committees, chosen, settings.committeeSize,
                            CommitteeCount(settings.depth), CommitteeCount(settings.depth))
    requires LayersUpTo(layers, settings.depth, CommitteeCount(settings.depth))
    ensures IsFullBinaryTree(Layout(committees, parents, children, layers), chosen, settings)
  {
    LayersComplete(layers, settings.depth);
  }

  /** `build_full_binary_tree`: splits the chosen nodes into runs of
      `committee_size`, one committee per run, and records for each committee
      its parent, its children and its layer. The `assert!` on the node count
      and the non-zero chunk size of `chunks` are preconditions. */
  method BuildFullBinaryTree(nodeIds: seq<NodeId>, chosen: seq<NodeId>, settings: TreeSettings)
    returns (layout: Layout)
    requires settings.committeeSize > 0
    requires GetTreeProperties(settings).nodeCount <= |nodeIds|
    requires |chosen| == GetTreeProperties(settings).nodeCount
    requires multiset(chosen) <= multiset(nodeIds)
    ensures IsFullBinaryTree(layout, chosen, settings)
  {
    var properties := GetTreeProperties(settings);
    var count := properties.committeeCount;
    var size := settings.committeeSize;
    var committees: map<nat, Committee> := map[];
    var parents: map<nat, nat> := map[];
    var children: map<nat, seq<nat>> := map[];
    var layers: map<nat, seq<nat>> := map[];
    var committeeId := 0;
    NothingFiled(chosen, size, count, settings.depth);
    while committeeId < count
      invariant committeeId <= count
      invariant LinksUpTo(parents, children, count, committeeId)
      invariant CommitteesUpTo(committees, chosen, size, count, committeeId)
      invariant LayersUpTo(layers, settings.depth, committeeId)
    {
      var committees', parents', children', layers' :=
        FileCommittee(committees, parents, children, layers, chosen, size, count, committeeId);
      LinksStep(parents, children, count, committeeId);
      CommitteesStep(committees, chosen, size, count, committeeId);
      FileInLayerStep(layers, settings.depth, committeeId);
      committees, parents, children, layers := committees', parents', children', layers';
      committeeId := committeeId + 1;
    }
    AllFiled(committees, parents, children, layers, chosen, settings);
    layout := Layout(committees, parents, children, layers);
  }

  /** In a built layout, committee i's role follows the source's rule: the
      root is committee 0, a committee with a children entry is
      intermediate, any other is a leaf. */
  lemma RoleFollowsChildren(layout: Layout, chosen: seq<NodeId>, settings: TreeSettings, i: nat)
    requires IsFullBinaryTree(layout, chosen, settings)
    requires i in layout.committees
    ensures layout.committees[i].role ==
      (if i == 0 then Root else if i in layout.children then Intermediate else Leaf)
    ensures layout.committees[i].role == Root <==> i == 0
  {
    var count := CommitteeCount(settings.depth);
    assert i < count;
    assert i in layout.children <==> 2 * i + 2 <= count;
  }

  /** In a built layout, parent and children agree: both children of a
      committee name it as their parent, and the parent of a non-root
      committee lists it among its children. */
  lemma ParentAndChildrenAgree(layout: Layout, chosen: seq<NodeId>, settings: TreeSettings, i: nat)
    requires IsFullBinaryTree(layout, chosen, settings)
    ensures i in layout.children ==>
      forall c :: c in layout.children[i] ==> c in layout.parent && layout.parent[c] == i
    ensures i in layout.parent ==>
      layout.parent[i] in layout.children && i in layout.children[layout.parent[i]]
  {
    var count := CommitteeCount(settings.depth);
    if i in layout.children {
      assert 2 * i + 2 <= count;
      forall c | c in layout.children[i]
        ensures c in layout.parent && layout.parent[c] == i
      {
        assert c == 2 * i + 1 || c == 2 * i + 2;
        assert c in layout.parent;
      }
    }
    if i in layout.parent {
      var p := layout.parent[i];
      assert i < count && (i == 2 * p + 1 || i == 2 * p + 2);
      if i == 2 * p + 1 {
        assert 2 * p + 2 <= count by {
          Pow2Even(settings.depth);
        }
      }
      assert p in layout.children;
    }
  }

  /** For depth at least one the committee count is odd, so the left child
      of the last committees never stands alone. */
  lemma {:induction false} Pow2Even(k: nat)
    ensures k > 0 ==> Pow2(k) % 2 == 0
  {
  }

  /** `build_full_depth_1`: a single committee, with no children and no
      parents. */
  lemma DepthOneLayout(layout: Layout, chosen: seq<NodeId>)
    requires IsFullBinaryTree(layout, chosen, TreeSettings(FullBinaryTree, 1, 1))
    ensures layout.committees.Keys == {0}
    ensures layout.children == map[] && layout.parent == map[]
  {
    assert Pow2(1) == 2;
    assert 0 in layout.committees;
  }

  /** `build_full_depth_3` and `check_committee_role`: the links and roles of
      a three-layer tree. */
  lemma DepthThreeLayout(layout: Layout, chosen: seq<NodeId>)
    requires IsFullBinaryTree(layout, chosen, TreeSettings(FullBinaryTree, 1, 3))
    ensures layout.children[0] == [1, 2] && layout.children[1] == [3, 4] && layout.children[2] == [5, 6]
    ensures layout.parent[1] == 0 && layout.parent[2] == 0
    ensures layout.parent[3] == 1 && layout.parent[4] == 1 && layout.parent[5] == 2 && layout.parent[6] == 2
    ensures 3 !in layout.children && 4 !in layout.children && 5 !in layout.children && 6 !in layout.children
    ensures layout.committees[0].role == Root
    ensures layout.committees[1].role == Intermediate && layout.committees[2].role == Intermediate
    ensures layout.committees[3].role == Leaf && layout.committees[6].role == Leaf
  {
    assert Pow2(3) == 8;
    assert 0 in layout.children && 1 in layout.children && 2 in layout.children;
    assert 1 in layout.parent && 2 in layout.parent && 3 in layout.parent;
    assert 4 in layout.parent && 5 in layout.parent && 6 in layout.parent;
    assert 0 in layout.committees && 1 in layout.committees && 2 in layout.committees;
    assert 3 in layout.committees && 6 in layout.committees;
  }

  /** `check_layers`: the first three layers of a four-layer tree. */
  lemma DepthFourLayers(layout: Layout, chosen: seq<NodeId>)
    requires IsFullBinaryTree(layout, chosen, TreeSettings(FullBinaryTree, 1, 4))
    ensures layout.layers[0] == [0] && layout.layers[1] == [1, 2] && layout.layers[2] == [3, 4, 5, 6]
  {
    assert Pow2(1) == 2 && Pow2(2) == 4 && Pow2(3) == 8;
    assert 0 in layout.layers && 1 in layout.layers && 2 in layout.layers;
  }

  /** `build_full_committee_size`: with the nodes drawn in id order, ten
      layers of ten-node committees give the root nodes 0..9 and the last
      committee nodes 10220..10229. */
  lemma CommitteeSizeLayout(layout: Layout)
    requires IsFullBinaryTree(layout, Nodes(TreeSettings(FullBinaryTree, 10, 10)), TreeSettings(FullBinaryTree, 10, 10))
    ensures |layout.committees| == 1023
    ensures |layout.committees[0].nodes| == 10
    ensures layout.committees[0].nodes[0] == NodeId(0) && layout.committees[0].nodes[9] == NodeId(9)
    ensures |layout.committees[1022].nodes| == 10
    ensures layout.committees[1022].nodes[0] == NodeId(10220) && layout.committees[1022].nodes[9] == NodeId(10229)
  {
    var settings := TreeSettings(FullBinaryTree, 10, 10);
    CommitteeCountDepthTen();
    KeysBelow(layout.committees, 1023);
    var chosen := Nodes(settings);
    assert 0 in layout.committees && 1022 in layout.committees;
    assert IsChunk(layout.committees[0].nodes, chosen, 10, 0);
    assert IsChunk(layout.committees[1022].nodes, chosen, 10, 1022);
  }

  /** A map whose keys are the ids below n holds n entries. */
  lemma {:induction false} KeysBelow<T>(m: map<nat, T>, n: nat)
    requires forall c: nat :: c in m <==> c < n
    ensures |m| == n
  {
    if n > 0 {
      var m' := m - {n - 1};
      KeysBelow(m', n - 1);
      assert m.Keys == m'.Keys + {n - 1};
      assert |m.Keys| == |m'.Keys| + 1;
    } else {
      assert m == map[];
    }
  }
}
