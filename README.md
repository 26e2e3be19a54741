# System Design Simulator: node store and inspector, in Dafny

This project models the game logic of a browser "tycoon" canvas where players
place infrastructure nodes and configure them. Two parts are modelled:

- **The canvas state** (`src/app/page.tsx`). It holds the node list, the edge
  list and the selected node id. The list starts with the undeletable anchor
  `client-1`. A drop of a palette token appends a node with default game data.
  Node, background and close clicks move the selection. `updateNodeData`
  shallow-merges a patch into every node with a given id.
- **The inspector panel** (`src/components/layout/right-panel.tsx`). It shows
  the selected node's levels and installed software, and its buttons build
  patches: upgrade a stat, install a software id, uninstall one.

Files:

- `text.dfy`, module `Text`: ASCII lower-casing and decimal rendering with
  its parser. These stand for `toLowerCase` and `${Date.now()}`.
- `flow.dfy`, module `Flow`: the data bag `map<string, Val>`, its shallow
  merge, the node and edge records, and the `WellFormed` shape of a data bag.
- `inspector.dfy`, module `Inspector`: the panel's reads and display
  defaults, the catalog cards, and the three patch builders with their
  properties.
- `canvas.dfy`, module `Canvas`: node update and lookup, node creation, the
  click transition, and the class `GameCanvas`. Its fields are the three
  state cells. Its methods are the handlers and the panel buttons wired to
  `updateNodeData`.
- `scenarios.dfy`, module `Scenarios`: end-to-end runs. The runs through the
  class are proved from the contracts of `GameCanvas`'s methods. The data
  bags they produce are computed by small lemmas.

`GameCanvas.Valid()` is the invariant every handler keeps:

- the anchor is first and undeletable;
- every node's data is well formed (both levels are integers of at least 1,
  and `software` is a string list without duplicates);
- the anchor is never the selection.

Because the selection is never the anchor, panel patches never touch it.

Notes on what the code does:

- The installed list is stored under the data key `software`. `installedSoftware` is only the panel's local name for it.
- The panel shows ram level 2 when none is stored. The upgrade reads the same
  absence as 1, so the first ram upgrade stores 2 and the display stays at 2
  (`Inspector.RamDefaultDivergence`).
- Uninstall always issues a patch. When `software` was absent, that patch adds
  `software: []`. The list contents are unchanged, but the key is new.
- Ids are not unique. A patch goes to every node with the id. It is built
  from the data of the first such node. A drop can even reuse the anchor's
  id (`Canvas.NewNodeMatchesAnchorId`).
- The selection is not cleared when its node goes away. The lookup just
  yields no node, and patches for that id change nothing.

## Model

| member | source | states |
|---|---|---|
| `Flow.Merge` | src/app/page.tsx:146-149 | every patch key takes the patch's value; every other key keeps its old value; no key is dropped |
| `Flow.MergeTwice` | src/app/page.tsx:146-149 | merging the same patch again changes nothing |
| `Flow.MergeWellFormed` | src/app/page.tsx:146-149 | merging a well-formed patch keeps a well-formed bag well formed |
| `Canvas.UpdateNodes` | src/app/page.tsx:141-154 | same length and order; nodes with another id are unchanged; matching nodes get the merged data |
| `Canvas.UpdateAbsentId` | src/app/page.tsx:143-152 | a patch for an id no node has returns the list unchanged |
| `Canvas.UpdateKeepsShape` | src/app/page.tsx:146-148 | every node keeps its id, type, position and deletable flag |
| `Canvas.UpdateIsShallowMerge` | src/app/page.tsx:146-149 | in a matching node, patch keys take the patch values and the other keys keep theirs |
| `Canvas.UpdateKeepsWellFormed` | src/app/page.tsx:141-154 | a well-formed patch keeps every node's data well formed |
| `Canvas.FindNode` | src/app/page.tsx:157 | none exactly when nothing is selected or no node has the id; otherwise the first node with that id |
| `Canvas.FindAfterUpdate` | src/app/page.tsx:141-157 | after a patch to an id, the lookup of that id finds the same node with the patch merged in |
| `Canvas.NewNodeIdParts` | src/app/page.tsx:104 | the new id is the lower-cased token, a dash, then digits that parse back to the timestamp |
| `Canvas.NewNodeData` | src/app/page.tsx:103-114 | the new node has the token plus " Node" as label, cpu 1, ram 1, nothing installed, the drop position, and is deletable |
| `Canvas.NewNodeMatchesAnchorId` | src/app/page.tsx:104 | a drop gets id `client-1` exactly when the token lower-cases to "client" and the clock reads 1 |
| `Canvas.NewNode` | src/app/page.tsx:103-114 | the id is the lower-cased token, a dash and the timestamp digits; the data has exactly label, cpu, ram and software keys and is well formed; type `default` at the drop position |
| `Canvas.Dropped` | src/app/page.tsx:92-116 | an empty token leaves the list as it was; otherwise exactly one node, the new node, is appended at the end and earlier nodes stay |
| `Canvas.UpdateIfPatched` | src/components/layout/right-panel.tsx:40-41 | no patch leaves the list as it was; otherwise same length and ids, nodes with another id are unchanged, and matching nodes get the patch merged |
| `Canvas.GameCanvas.SelectedNode` | src/app/page.tsx:157 | none exactly when nothing is selected or no node has the selected id; otherwise the first node with that id |
| `Canvas.ClickSelection` | src/app/page.tsx:126-133 | the selection is cleared exactly when the anchor is clicked; otherwise it is the clicked id |
| `Canvas.GameCanvas.constructor` | src/app/page.tsx:28-51 | the anchor alone, no edges, nothing selected; the invariant holds |
| `Canvas.GameCanvas.UpdateNodeData` | src/app/page.tsx:141-154 | the node list becomes the patched list; edges and selection are unchanged; a well-formed patch keeps the invariant |
| `Canvas.GameCanvas.Drop` | src/app/page.tsx:84-119 | the node list is the old list, with the new node appended when the token is non-empty; the invariant is kept |
| `Canvas.GameCanvas.NodeClick` | src/app/page.tsx:126-133 | the selection becomes the click transition of the node's id; nodes and edges are unchanged |
| `Canvas.GameCanvas.PaneClick` | src/app/page.tsx:136-138 | the selection is none and the panel shows nothing; nodes and edges are unchanged, so repeating it changes nothing |
| `Canvas.GameCanvas.Close` | src/app/page.tsx:181 | the same as a background click |
| `Canvas.GameCanvas.SelectedNodeIsWellFormed` | src/app/page.tsx:157 | under the invariant, the selected node is never the anchor and its data is well formed |
| `Canvas.GameCanvas.ApplyRequest` | src/app/page.tsx:179-183 | merges a panel patch for the shown node; the anchor is untouched; the shown node is the old one with the patch applied |
| `Canvas.GameCanvas.Upgrade` | src/components/layout/right-panel.tsx:34-37 | with no selection nothing changes; otherwise the upgrade patch of the selected node is merged into its id |
| `Canvas.GameCanvas.Install` | src/components/layout/right-panel.tsx:39-44 | with no selection, or an already installed id, nothing changes; otherwise the install patch is merged |
| `Canvas.GameCanvas.Uninstall` | src/components/layout/right-panel.tsx:46-50 | with no selection nothing changes; otherwise the filtered software list is merged |
| `Inspector.Stat.Key` | src/components/layout/right-panel.tsx:34-36 | the cpu stat patches `cpuLevel` and the ram stat patches `ramLevel`, one key each |
| `Inspector.ReadWellFormed` | src/components/layout/right-panel.tsx:30-32 | on a well-formed bag, a stored level is read as itself, an absent one as its fallback, and the installed list has no duplicates |
| `Inspector.ReadLevel` | src/components/layout/right-panel.tsx:30-35 | a stored non-zero number is read as itself; otherwise the fallback |
| `Inspector.ReadSoftware` | src/components/layout/right-panel.tsx:32 | a stored string list is read as itself; otherwise the empty list |
| `Inspector.ReadLabel` | src/components/layout/right-panel.tsx:29 | a stored string label is read as itself; otherwise nothing |
| `Inspector.View` | src/components/layout/right-panel.tsx:26-32 | no panel exactly when no node is selected; otherwise one card per catalog entry |
| `Inspector.ViewWellFormed` | src/components/layout/right-panel.tsx:29-32 | on a well-formed node: the title, the stored levels or cpu 1 and ram 2, the stored list or nothing, and each catalog card in order, disabled exactly when its id is installed |
| `Inspector.ViewDefaults` | src/components/layout/right-panel.tsx:30-32 | a node without game data shows cpu 1, ram 2 and nothing installed |
| `Inspector.RamDefaultDivergence` | src/components/layout/right-panel.tsx:31-35 | without `ramLevel` the display reads 2, the first upgrade stores 2, and the display still reads 2 |
| `Inspector.CatalogRows` | src/components/layout/right-panel.tsx:157-177 | one card per catalog entry, in order; a card's button is disabled exactly when its id is installed |
| `Inspector.CatalogCardFollowsInstall` | src/components/layout/right-panel.tsx:158-174 | after installing a catalog id its card is disabled; after uninstalling it the card is enabled |
| `Inspector.UpgradePatch` | src/components/layout/right-panel.tsx:34-37 | touches only the stat; the value is one above the level read with fallback 1, so strictly above any stored number; well-formed input gives a well-formed patch |
| `Inspector.UpgradeTouchesOnlyStat` | src/components/layout/right-panel.tsx:34-37 | once merged, the stat is one above the level it read and every other key keeps its value |
| `Inspector.Upgraded` | src/components/layout/right-panel.tsx:34-37 | repeated upgrades of one stat change no other key, and after at least one the stat holds a number |
| `Inspector.UpgradedLevel` | src/components/layout/right-panel.tsx:34-37 | from a positive level, n upgrades raise the level read by exactly n and change no other key |
| `Inspector.UpgradedFromOne` | src/components/layout/right-panel.tsx:34-37 | n upgrades from level 1 give level 1 + n |
| `Inspector.InstallPatch` | src/components/layout/right-panel.tsx:39-44 | no patch exactly when the id is installed; otherwise only `software`, with the old list as prefix, length one more, and the id last |
| `Inspector.MergeIfPatched` | src/components/layout/right-panel.tsx:40-41 | no patch leaves the data as it was; otherwise the patch keys take the patch values and the other keys keep theirs |
| `Inspector.InstallIdempotent` | src/components/layout/right-panel.tsx:40-43 | after an install the id is present, and a second install issues no patch and changes nothing |
| `Inspector.InstallTouchesOnlySoftware` | src/components/layout/right-panel.tsx:39-44 | an install changes no key other than `software` |
| `Inspector.Without` | src/components/layout/right-panel.tsx:48 | the removed id is gone, every other member stays, and the list does not grow |
| `Inspector.WithoutAbsent` | src/components/layout/right-panel.tsx:48 | filtering an absent id gives the same list |
| `Inspector.WithoutAppend` | src/components/layout/right-panel.tsx:48 | filtering distributes over concatenation, so the kept ids stay in order |
| `Inspector.WithoutMultiset` | src/components/layout/right-panel.tsx:48 | every copy of the id is removed and every copy of the other ids is kept |
| `Inspector.WithoutNoDuplicates` | src/components/layout/right-panel.tsx:48 | filtering a list without duplicates gives a list without duplicates |
| `Inspector.UninstallPatch` | src/components/layout/right-panel.tsx:46-50 | always a patch of `software` alone, holding the old list with the id filtered out; well-formed input gives a well-formed patch |
| `Inspector.UninstallTouchesOnlySoftware` | src/components/layout/right-panel.tsx:46-50 | after an uninstall the id is not installed, and no other key changed |
| `Inspector.UninstallAbsent` | src/components/layout/right-panel.tsx:46-50 | uninstalling an id that is not installed leaves the installed list unchanged |
| `Inspector.SoftwarePatchesKeepWellFormed` | src/components/layout/right-panel.tsx:39-50 | install and uninstall keep the bag well formed, so no software id is installed twice |
| `Text.Lower` | src/app/page.tsx:104 | same length; each character is lower-cased |
| `Text.LowerIsIdempotent` | src/app/page.tsx:104 | a lower-cased token has no upper-case letter, so lower-casing it again changes nothing |
| `Text.Decimal` | src/app/page.tsx:104 | at least one digit, only digits, and a leading zero only for zero |
| `Text.ParseDecimalOfDecimal` | src/app/page.tsx:104 | parsing the decimal rendering gives the timestamp back |
| `Text.DecimalIsInjective` | src/app/page.tsx:104 | different timestamps render to different strings |
| `Scenarios.MergeKeepsUnmentioned` | src/app/page.tsx:146-149 | patching `cpuLevel` to 2 keeps `ramLevel` 3 and `software` ["nginx"] |
| `Scenarios.ServerDrop` | src/app/page.tsx:103-114 | a "SERVER" drop creates `server-<now>` with the default game data at the drop position |
| `Scenarios.ServerRamUpgrade` | src/components/layout/right-panel.tsx:34-37 | one ram upgrade of the default data stores ram level 2 and keeps the rest |
| `Scenarios.ServerInstall` | src/components/layout/right-panel.tsx:39-44 | installing postgres on the upgraded data gives the installed list ["postgres"] |
| `Scenarios.ServerScenario` | src/app/page.tsx:84-183 | drop SERVER, select it, upgrade ram, install postgres: cpu 1, ram 2, ["postgres"]; a background click then hides the panel |
| `Scenarios.AnchorClickScenario` | src/app/page.tsx:126-131 | clicking the anchor clears the selection, so the panel shows nothing |
| `Scenarios.StalePatch` | src/app/page.tsx:141-157 | a patch for a removed id changes nothing and does not make the id findable again |
| `Scenarios.InstallTwiceScenario` | src/components/layout/right-panel.tsx:39-44 | two installs of one id through the panel leave the node as one install does |

## Left out

- `onNodesChange`, `onEdgesChange` and `onConnect` (src/app/page.tsx:60-73) are not modelled. They pass changes to `applyNodeChanges`, `applyEdgeChanges` and `addEdge` of the graph-canvas library, whose source is not part of this model. So node moves and deletions are not modelled, and neither is any edge operation. The `edges` field is kept, and every modelled handler leaves it unchanged.
- The `deletable: false` flag on the anchor is enforced inside that library. The model carries the flag in its invariant. Without deletions, it cannot show that the anchor survives a delete gesture.
- `onDragOver` (src/app/page.tsx:79-82) only sets browser drag flags and changes no state.
- The drag-data channel is modelled as the `token` string, which may be empty. `getData` always returns a string, so an undefined token cannot occur.
- `screenToFlowPosition` (src/app/page.tsx:97-100) is the viewport transform. Its result is the `pos` parameter, an integer pair. Floating-point coordinates are not modelled.
- `Date.now()` is the clock. It is the `now: nat` parameter. No claim is made that ids are unique.
- `Text.Lower` maps only ASCII A-Z. The full Unicode case mapping of `toLowerCase` is not modelled.
- `Inspector.ReadLevel`, `Inspector.ReadSoftware` and `Inspector.ReadLabel` read a value of the wrong dynamic type as absent. One example is a string under `cpuLevel`. JavaScript would instead concatenate strings, search substrings, or throw, and React would render a non-string label such as a number. No modelled operation writes such values: `WellFormed` is proved preserved.
- JavaScript numbers are modelled as unbounded integers. Precision loss above 2^53 and NaN are not modelled.
- Rendering is not modelled: layout, tabs, badges, icons, the RAM badge `ramLevel * 2 GB`, cost labels and catalog costs. Neither is the installed-list name lookup `app?.name || appId`, which is a display-only fallback. No economy exists, and none is modelled.
- A dropped node sets no `deletable` field. It is deletable only through the canvas library's default, which the model writes as `deletable = true` in `Canvas.NewNode`.
- The node `type` strings are opaque labels: `input` for the anchor, `default` for drops.
- `src/components/layout/sidebar.tsx` is not part of this model. It is a static palette, theme toggle and menu.
