/** The game canvas of `src/app/page.tsx`: the node list, the edge list and the
    selected node id, the drop handler that creates nodes, the click handlers
    that move the selection, and `updateNodeData`, through which the inspector
    panel's patches reach the node list. */
module Canvas {
  import opened Flow
  import Text
  import Inspector

  /** The fixed anchor node every session starts with. */
  const AnchorId: string := "client-1"
  const Anchor: Node := Node(AnchorId, "input", Position(50, 250), map[LabelKey := Str("Client (Internet)")], false)

  // ---------------------------------------------------------------------------
  // updateNodeData: a shallow merge into every node with the given id
  // ---------------------------------------------------------------------------

  /** The node list after `patch` is merged into the data of every node whose
      id is `nodeId`; the other nodes are returned as they were. */
  function UpdateNodes(nodes: seq<Node>, nodeId: string, patch: Patch): (r: seq<Node>)
    ensures |r| == |nodes|
    ensures forall i :: 0 <= i < |nodes| && nodes[i].id != nodeId ==> r[i] == nodes[i]
    ensures forall i :: 0 <= i < |nodes| && nodes[i].id == nodeId ==>
      r[i] == nodes[i].(data := Merge(nodes[i].data, patch))
  {
    if nodes == [] then []
    else
      var head := if nodes[0].id == nodeId then nodes[0].(data := Merge(nodes[0].data, patch)) else nodes[0];
      [head] + UpdateNodes(nodes[1..], nodeId, patch)
  }

  /** A patch for an id that no node has leaves the list as it was: a patch
      that arrives after its node was deleted brings nothing back. */
  lemma UpdateAbsentId(nodes: seq<Node>, nodeId: string, patch: Patch)
    requires forall i :: 0 <= i < |nodes| ==> nodes[i].id != nodeId
    ensures UpdateNodes(nodes, nodeId, patch) == nodes
  {
  }

  /** A patch changes data only: every node keeps its id, type, position and
      deletable flag, in the same order. */
  lemma UpdateKeepsShape(nodes: seq<Node>, nodeId: string, patch: Patch)
    ensures var r := UpdateNodes(nodes, nodeId, patch);
      forall i :: 0 <= i < |nodes| ==>
        && r[i].id == nodes[i].id && r[i].nodeType == nodes[i].nodeType
        && r[i].position == nodes[i].position && r[i].deletable == nodes[i].deletable
  {
  }

  /** In a matching node, each key of the patch takes the patch's value and each
      key the patch does not mention keeps its old value. */
  lemma UpdateIsShallowMerge(nodes: seq<Node>, nodeId: string, patch: Patch, i: nat)
    requires i < |nodes| && nodes[i].id == nodeId
    ensures var d := UpdateNodes(nodes, nodeId, patch)[i].data;
      && d.Keys == nodes[i].data.Keys + patch.Keys
      && (forall k :: k in patch ==> d[k] == patch[k])
      && (forall k :: k in nodes[i].data && k !in patch ==> d[k] == nodes[i].data[k])
  {
  }

  predicate AllWellFormed(nodes: seq<Node>) {
    forall i :: 0 <= i < |nodes| ==> WellFormed(nodes[i].data)
  }

  /** Merging a well-formed patch keeps every node's data well formed. */
  lemma UpdateKeepsWellFormed(nodes: seq<Node>, nodeId: string, patch: Patch)
    requires AllWellFormed(nodes) && WellFormed(patch)
    ensures AllWellFormed(UpdateNodes(nodes, nodeId, patch))
  {
    var r := UpdateNodes(nodes, nodeId, patch);
    forall i | 0 <= i < |r| ensures WellFormed(r[i].data) {
      if nodes[i].id == nodeId {
        MergeWellFormed(nodes[i].data, patch);
      }
    }
  }

  /** The node list after a handler's outcome: unchanged when no patch was
      issued, otherwise the patch merged into every node with the id. */
  function UpdateIfPatched(nodes: seq<Node>, nodeId: string, request: Option<Patch>): (r: seq<Node>)
    ensures |r| == |nodes|
    ensures request.None? ==> r == nodes
    ensures forall i :: 0 <= i < |nodes| ==> r[i].id == nodes[i].id
    ensures forall i :: 0 <= i < |nodes| && nodes[i].id != nodeId ==> r[i] == nodes[i]
    ensures forall i :: 0 <= i < |nodes| && nodes[i].id == nodeId ==>
      r[i] == nodes[i].(data := Inspector.MergeIfPatched(nodes[i].data, request))
  {
    match request
    case None => nodes
    case Some(patch) => UpdateNodes(nodes, nodeId, patch)
  }

  // ---------------------------------------------------------------------------
  // selectedNode: the first node with the selected id
  // ---------------------------------------------------------------------------

  /** The node the panel is given: the first node of the list whose id is the
      selected id, or none. */
  function FindNode(nodes: seq<Node>, selected: Option<string>): (r: Option<Node>)
    ensures r.None? <==> selected.None? || forall i :: 0 <= i < |nodes| ==> nodes[i].id != selected.value
    ensures r.Some? ==>
      && selected.Some? && r.value.id == selected.value
      && exists i :: 0 <= i < |nodes| && nodes[i] == r.value && forall j :: 0 <= j < i ==> nodes[j].id != selected.value
  {
    match selected
    case None => None
    case Some(id) =>
      if nodes == [] then None
      else if nodes[0].id == id then Some(nodes[0])
      else
        FindNode(nodes[1..], selected)
  }

  /** Patching the selected id and then looking the selection up gives the
      node found before, with the patch merged into its data. */
  lemma {:induction false} FindAfterUpdate(nodes: seq<Node>, nodeId: string, patch: Patch)
    ensures FindNode(UpdateNodes(nodes, nodeId, patch), Some(nodeId)) ==
      match FindNode(nodes, Some(nodeId))
      case None => None
      case Some(n) => Some(n.(data := Merge(n.data, patch)))
  {
    if nodes != [] && nodes[0].id != nodeId {
      assert UpdateNodes(nodes, nodeId, patch)[1..] == UpdateNodes(nodes[1..], nodeId, patch);
      FindAfterUpdate(nodes[1..], nodeId, patch);
    }
  }

  // ---------------------------------------------------------------------------
  // onDrop: the only way a node is created
  // ---------------------------------------------------------------------------

  /** The node a drop of a non-empty type token creates at canvas position
      `pos`, the drop happening when the clock reads `now` milliseconds. */
  function NewNode(token: string, now: nat, pos: Position): (n: Node)
    ensures |n.id| == |token| + 1 + |Text.Decimal(now)|
    ensures n.id[..|token|] == Text.Lower(token) && n.id[|token|] == '-' && n.id[|token| + 1..] == Text.Decimal(now)
    ensures n.data.Keys == {LabelKey, CpuKey, RamKey, SoftwareKey} && WellFormed(n.data)
    ensures n.nodeType == "default" && n.position == pos
  {
    Node(
      Text.Lower(token) + "-" + Text.Decimal(now),
      "default",
      pos,
      map[LabelKey := Str(token + " Node"), CpuKey := Int(1), RamKey := Int(1), SoftwareKey := StrList([])],
      true)
  }

  /** The node list after a drop: exactly one node, `NewNode`, appended at
      the end when the token is non-empty, earlier nodes where they were, and
      the list as it was when the token is empty. */
  function Dropped(nodes: seq<Node>, token: string, now: nat, pos: Position): (r: seq<Node>)
    ensures |r| == |nodes| + (if token == "" then 0 else 1)
    ensures r[..|nodes|] == nodes
    ensures token != "" ==> r[|nodes|] == NewNode(token, now, pos)
  {
    if token == "" then nodes else nodes + [NewNode(token, now, pos)]
  }

  /** A dropped node's id is the lower-cased token, a dash and the timestamp in
      decimal; the timestamp can be read back from the digits after the dash. */
  lemma NewNodeIdParts(token: string, now: nat, pos: Position)
    ensures var id, p := NewNode(token, now, pos).id, |token|;
      && |id| > p + 1
      && id[..p] == Text.Lower(token) && id[p] == '-'
      && Text.IsDigits(id[p + 1..]) && Text.ParseDecimal(id[p + 1..]) == now
  {
    var id, p := NewNode(token, now, pos).id, |token|;
    assert id[p + 1..] == Text.Decimal(now);
    Text.ParseDecimalOfDecimal(now);
  }

  /** A dropped node carries its label and the default game data, which the
      panel shows as cpu 1, ram 1 and nothing installed. */
  lemma NewNodeData(token: string, now: nat, pos: Position)
    ensures var n := NewNode(token, now, pos);
      && WellFormed(n.data) && n.deletable && n.position == pos
      && Inspector.View(Some(n)) == Some(Inspector.PanelView(
           token + " Node", 1, 1, [], Inspector.CatalogRows(Inspector.Catalog, [])))
  {
  }

  /** Dropped ids are not unique by construction: a drop gets the anchor's id
      exactly when the token lower-cases to "client" and the clock reads 1. */
  lemma NewNodeMatchesAnchorId(token: string, now: nat, pos: Position)
    ensures NewNode(token, now, pos).id == AnchorId <==> Text.Lower(token) == "client" && now == 1
  {
    var low, digits := Text.Lower(token), Text.Decimal(now);
    var id := low + "-" + digits;
    if id == AnchorId {
      assert id[|low|] == '-';
      assert forall k :: 0 <= k < |digits| ==> id[|low| + 1 + k] == digits[k] && Text.IsDigit(digits[k]);
      assert |low| == 6;
      assert low == id[..6];
      assert digits == id[7..] == "1";
      assert Text.Decimal(1) == "1";
      Text.DecimalIsInjective(now, 1);
    }
    if low == "client" && now == 1 {
      assert Text.Decimal(1) == "1";
    }
  }

  // ---------------------------------------------------------------------------
  // onNodeClick: the selection a click on a node leads to
  // ---------------------------------------------------------------------------

  /** Clicking the anchor clears the selection; clicking any other node
      selects that node's id. */
  function ClickSelection(clickedId: string): (r: Option<string>)
    ensures r.None? <==> clickedId == AnchorId
    ensures r.Some? ==> r.value == clickedId
  {
    if clickedId == AnchorId then None else Some(clickedId)
  }

  // ---------------------------------------------------------------------------
  // The canvas state
  // ---------------------------------------------------------------------------

  class GameCanvas {
    var nodes: seq<Node>
    var edges: seq<Edge>
    var selected: Option<string>

    /** The anchor stays first and undeletable, every node's data stays well
        formed, and the anchor is never the selection. */
    ghost predicate Valid()
      reads this
    {
      && |nodes| >= 1 && nodes[0].id == AnchorId && !nodes[0].deletable
      && AllWellFormed(nodes)
      && selected != Some(AnchorId)
    }

    /** The selected node object handed to the panel: none when nothing is
        selected or no node has the selected id, otherwise a node of the list
        with that id, the first one. */
    function SelectedNode(): (r: Option<Node>)
      reads this
      ensures r.None? <==> selected.None? || forall i :: 0 <= i < |nodes| ==> nodes[i].id != selected.value
      ensures r.Some? ==>
        && selected.Some? && r.value.id == selected.value
        && exists i :: 0 <= i < |nodes| && nodes[i] == r.value && forall j :: 0 <= j < i ==> nodes[j].id != selected.value
    {
      FindNode(nodes, selected)
    }

    /** The initial state: the anchor alone, no edges, nothing selected. */
    constructor ()
      ensures Valid()
      ensures nodes == [Anchor] && edges == [] && selected == None
    {
      nodes := [Anchor];
      edges := [];
      selected := None;
    }

    /** `updateNodeData(nodeId, patch)`. */
    method UpdateNodeData(nodeId: string, patch: Patch)
      modifies this
      ensures nodes == UpdateNodes(old(nodes), nodeId, patch)
      ensures edges == old(edges) && selected == old(selected)
      ensures old(Valid()) && WellFormed(patch) ==> Valid()
    {
      if Valid() && WellFormed(patch) {
        UpdateKeepsWellFormed(nodes, nodeId, patch);
      }
      nodes := UpdateNodes(nodes, nodeId, patch);
    }

    /** `onDrop`: the type token read from the drag data, the canvas position
        of the drop and the clock reading are its inputs. */
    method Drop(token: string, now: nat, pos: Position)
      requires Valid()
      modifies this
      ensures Valid()
      ensures nodes == Dropped(old(nodes), token, now, pos)
      ensures edges == old(edges) && selected == old(selected)
    {
      if token == "" {
        return;
      }
      NewNodeData(token, now, pos);
      nodes := nodes + [NewNode(token, now, pos)];
    }

    /** `onNodeClick(node)`. */
    method NodeClick(node: Node)
      requires Valid()
      modifies this
      ensures Valid()
      ensures selected == ClickSelection(node.id)
      ensures nodes == old(nodes) && edges == old(edges)
    {
      if node.id == AnchorId {
        selected := None;
        return;
      }
      selected := Some(node.id);
    }

    /** `onPaneClick`: a click on the background clears the selection. */
    method PaneClick()
      requires Valid()
      modifies this
      ensures Valid()
      ensures selected == None && SelectedNode() == None && Inspector.View(SelectedNode()) == None
      ensures nodes == old(nodes) && edges == old(edges)
    {
      selected := None;
    }

    /** The panel's close button clears the selection. */
    method Close()
      requires Valid()
      modifies this
      ensures Valid()
      ensures selected == None && SelectedNode() == None && Inspector.View(SelectedNode()) == None
      ensures nodes == old(nodes) && edges == old(edges)
    {
      selected := None;
    }

    /** The selected node, when there is one, is a well-formed node of the list
        other than the anchor. */
    lemma SelectedNodeIsWellFormed()
      requires Valid()
      ensures SelectedNode().Some? ==>
        SelectedNode().value.id != AnchorId && WellFormed(SelectedNode().value.data)
    {
    }

    /** Merges a patch issued by the panel for the node it shows. The anchor is
        never the selected node, so it is never patched; the panel shows the
        found node with the patch merged in. */
    method ApplyRequest(n: Node, request: Option<Patch>)
      requires Valid() && SelectedNode() == Some(n)
      requires request.Some? ==> WellFormed(request.value)
      modifies this
      ensures Valid()
      ensures nodes == UpdateIfPatched(old(nodes), n.id, request)
      ensures nodes[0] == old(nodes[0])
      ensures SelectedNode() == Some(n.(data := Inspector.MergeIfPatched(n.data, request)))
      ensures edges == old(edges) && selected == old(selected)
    {
      if request.Some? {
        FindAfterUpdate(nodes, n.id, request.value);
        UpdateNodeData(n.id, request.value);
      }
    }

    /** The panel's upgrade button for `stat`; without a selected node there is
        no panel and nothing happens. */
    method Upgrade(stat: Inspector.Stat)
      requires Valid()
      modifies this
      ensures Valid()
      ensures old(SelectedNode()).None? ==> nodes == old(nodes)
      ensures old(SelectedNode()).Some? ==>
        var n := old(SelectedNode()).value;
        && nodes == UpdateNodes(old(nodes), n.id, Inspector.UpgradePatch(n.data, stat))
        && SelectedNode() == Some(n.(data := Merge(n.data, Inspector.UpgradePatch(n.data, stat))))
      ensures nodes[0] == old(nodes[0])
      ensures edges == old(edges) && selected == old(selected)
    {
      var found := FindNode(nodes, selected);
      if found.Some? {
        SelectedNodeIsWellFormed();
        ApplyRequest(found.value, Some(Inspector.UpgradePatch(found.value.data, stat)));
      }
    }

    /** The panel's install button for `softwareId`. */
    method Install(softwareId: string)
      requires Valid()
      modifies this
      ensures Valid()
      ensures old(SelectedNode()).None? ==> nodes == old(nodes)
      ensures old(SelectedNode()).Some? ==>
        var n := old(SelectedNode()).value;
        && nodes == UpdateIfPatched(old(nodes), n.id, Inspector.InstallPatch(n.data, softwareId))
        && SelectedNode() == Some(n.(data := Inspector.MergeIfPatched(n.data, Inspector.InstallPatch(n.data, softwareId))))
      ensures nodes[0] == old(nodes[0])
      ensures edges == old(edges) && selected == old(selected)
    {
      var found := FindNode(nodes, selected);
      if found.Some? {
        SelectedNodeIsWellFormed();
        ApplyRequest(found.value, Inspector.InstallPatch(found.value.data, softwareId));
      }
    }

    /** The panel's uninstall button for `softwareId`. */
    method Uninstall(softwareId: string)
      requires Valid()
      modifies this
      ensures Valid()
      ensures old(SelectedNode()).None? ==> nodes == old(nodes)
      ensures old(SelectedNode()).Some? ==>
        var n := old(SelectedNode()).value;
        && nodes == UpdateNodes(old(nodes), n.id, Inspector.UninstallPatch(n.data, softwareId))
        && SelectedNode() == Some(n.(data := Merge(n.data, Inspector.UninstallPatch(n.data, softwareId))))
      ensures nodes[0] == old(nodes[0])
      ensures edges == old(edges) && selected == old(selected)
    {
      var found := FindNode(nodes, selected);
      if found.Some? {
        SelectedNodeIsWellFormed();
        ApplyRequest(found.value, Some(Inspector.UninstallPatch(found.value.data, softwareId)));
      }
    }
  }
}
