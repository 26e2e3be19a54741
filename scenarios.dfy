/** End-to-end runs of the canvas and its inspector panel. The runs through
    the class are proved from the contracts of `GameCanvas`'s methods; the
    data they produce is computed by small lemmas that unfold the patch
    builders and the merge. */
module Scenarios {
  import opened Flow
  import Text
  import Inspector
  import Canvas

  /** A patch that names `cpuLevel` only leaves the ram level and the installed
      software of the node as they were. */
  lemma MergeKeepsUnmentioned()
    ensures Merge(map[RamKey := Int(3), SoftwareKey := StrList(["nginx"])], map[CpuKey := Int(2)])
         == map[CpuKey := Int(2), RamKey := Int(3), SoftwareKey := StrList(["nginx"])]
  {
  }

  const ServerData: Data :=
    map[LabelKey := Str("SERVER Node"), CpuKey := Int(1), RamKey := Int(1), SoftwareKey := StrList([])]
  const UpgradedServerData: Data :=
    map[LabelKey := Str("SERVER Node"), CpuKey := Int(1), RamKey := Int(2), SoftwareKey := StrList([])]
  const InstalledServerData: Data :=
    map[LabelKey := Str("SERVER Node"), CpuKey := Int(1), RamKey := Int(2), SoftwareKey := StrList(["postgres"])]

  /** A "SERVER" drop creates `server-<now>` with the default game data. */
  lemma ServerDrop(now: nat, pos: Position)
    ensures var n := Canvas.NewNode("SERVER", now, pos);
      n.id == "server-" + Text.Decimal(now) && n.id[0] == 's' && n.data == ServerData && n.position == pos
  {
    assert Text.Lower("SERVER") == "server";
    assert "SERVER" + " Node" == "SERVER Node";
  }

  /** One ram upgrade of the default game data stores ram level 2. */
  lemma ServerRamUpgrade()
    ensures Merge(ServerData, Inspector.UpgradePatch(ServerData, Inspector.RamLevel)) == UpgradedServerData
  {
    var up := Inspector.UpgradePatch(ServerData, Inspector.RamLevel);
    assert up == map[RamKey := Int(2)];
    var m := Merge(ServerData, up);
    assert m.Keys == UpgradedServerData.Keys;
    assert forall k :: k in m ==> m[k] == UpgradedServerData[k];
  }

  /** Installing postgres then appends it to the empty installed list. */
  lemma ServerInstall()
    ensures Inspector.MergeIfPatched(UpgradedServerData, Inspector.InstallPatch(UpgradedServerData, "postgres")) == InstalledServerData
  {
    assert Inspector.ReadSoftware(UpgradedServerData) == [];
    var inst := map[SoftwareKey := StrList(["postgres"])];
    assert Inspector.InstallPatch(UpgradedServerData, "postgres") == Some(inst);
    var m := Merge(UpgradedServerData, inst);
    assert m.Keys == InstalledServerData.Keys;
    assert forall k :: k in m ==> m[k] == InstalledServerData[k];
  }

  /** Drop a "SERVER" token, select the new node, upgrade its ram once and
      install postgres: the node is `server-<now>` at the drop position with
      cpu 1, ram 2 and postgres installed. A background click then closes the
      panel. */
  method ServerScenario(now: nat, pos: Position) returns (node: Node, panelAfter: Option<Inspector.PanelView>)
    ensures node.id == "server-" + Text.Decimal(now) && node.position == pos
    ensures node.data == InstalledServerData
    ensures panelAfter == None
  {
    var c := new Canvas.GameCanvas();
    c.Drop("SERVER", now, pos);
    ServerDrop(now, pos);
    var server := c.nodes[1];
    assert server.id[0] != Canvas.AnchorId[0];
    c.NodeClick(server);
    assert c.SelectedNode() == Some(server);
    c.Upgrade(Inspector.RamLevel);
    ServerRamUpgrade();
    assert c.SelectedNode() == Some(server.(data := UpgradedServerData));
    c.Install("postgres");
    ServerInstall();
    node := c.SelectedNode().value;
    c.PaneClick();
    panelAfter := Inspector.View(c.SelectedNode());
  }

  /** Clicking the anchor never opens the panel, whatever was selected before. */
  method AnchorClickScenario(c: Canvas.GameCanvas) returns (panel: Option<Inspector.PanelView>)
    requires c.Valid()
    modifies c
    ensures c.selected == None && panel == None
  {
    c.NodeClick(c.nodes[0]);
    panel := Inspector.View(c.SelectedNode());
  }

  /** A patch for a node that has been removed from the list neither changes
      the list nor makes the node findable again. */
  lemma StalePatch(nodes: seq<Node>, nodeId: string, patch: Patch)
    requires forall i :: 0 <= i < |nodes| ==> nodes[i].id != nodeId
    ensures Canvas.UpdateNodes(nodes, nodeId, patch) == nodes
    ensures Canvas.FindNode(Canvas.UpdateNodes(nodes, nodeId, patch), Some(nodeId)) == None
  {
    Canvas.UpdateAbsentId(nodes, nodeId, patch);
  }

  /** Two installs of the same id through the panel leave the node as one
      install does. */
  method InstallTwiceScenario(c: Canvas.GameCanvas, softwareId: string)
    requires c.Valid() && c.SelectedNode().Some?
    modifies c
    ensures c.Valid()
    ensures var n := old(c.SelectedNode()).value;
      c.SelectedNode() == Some(n.(data := Inspector.MergeIfPatched(n.data, Inspector.InstallPatch(n.data, softwareId))))
    ensures softwareId in Inspector.ReadSoftware(c.SelectedNode().value.data)
  {
    ghost var n := c.SelectedNode().value;
    c.Install(softwareId);
    ghost var once := c.nodes;
    Inspector.InstallIdempotent(n.data, softwareId);
    c.Install(softwareId);
    assert c.nodes == once;
  }
}
