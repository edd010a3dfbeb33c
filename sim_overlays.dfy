/** The simulator's per-view overlays (simulations/src/node/mod.rs): the
    leaders and layout of each view, their generation for a number of views,
    and the shared overlay state the nodes read. The overlay's random
    choices of leaders and layout are inputs, one per view in view order. */
module SimOverlays {
  import opened Wrappers
  import opened SimNode
  import opened TreeOverlay

  datatype ViewOverlay = ViewOverlay(leaders: seq<NodeId>, layout: Layout)

  /** `generate_overlays`: the views `0 .. overlayCount` each get the
      overlay drawn for them, and no other key is present. */
  function GenerateOverlays(draws: seq<ViewOverlay>, overlayCount: nat): (m: map<nat, ViewOverlay>)
    requires |draws| == overlayCount
    ensures forall v: nat :: v in m <==> v < overlayCount
    ensures forall v: nat :: v < overlayCount ==> m[v] == draws[v]
    ensures |m| == overlayCount
  {
    var m := map v: nat | v < overlayCount :: draws[v];
    KeysBelow(m, overlayCount);
    m
  }

  /** The state every node shares: all node ids and the overlay of each
      view. */
  datatype OverlayState = OverlayState(allNodes: seq<NodeId>, overlays: map<nat, ViewOverlay>)

  /** `OverlayGetter::get_view`: the stored overlay of the view, or nothing
      when none is stored. */
  function GetView(state: OverlayState, index: nat): (r: Option<ViewOverlay>)
    ensures r.Some? <==> index in state.overlays
    ensures r.Some? ==> r.value == state.overlays[index]
  {
    if index in state.overlays then Some(state.overlays[index]) else None
  }

  /** `OverlayGetter::get_all_nodes`. */
  function GetAllNodes(state: OverlayState): (nodes: seq<NodeId>)
    ensures nodes == state.allNodes
  {
    state.allNodes
  }

  /** Every generated view can be read back, and a view past the generated
      ones reads as nothing. */
  lemma GeneratedViewsReadBack(allNodes: seq<NodeId>, draws: seq<ViewOverlay>, index: nat)
    ensures var state := OverlayState(allNodes, GenerateOverlays(draws, |draws|));
      && (index < |draws| ==> GetView(state, index) == Some(draws[index]))
      && (index >= |draws| ==> GetView(state, index) == None)
  {
  }
}
