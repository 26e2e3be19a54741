/** The inspector panel of `src/components/layout/right-panel.tsx`: what it shows
    for the selected node, and the patches its buttons ask the store to merge
    into that node's data. It keeps no state of its own; every handler is a
    function of the selected node's data bag. */
module Inspector {
  import opened Flow

  /** The two upgradable hardware stats. */
  datatype Stat = CpuLevel | RamLevel {
    function Key(): (k: string)
      ensures k == CpuKey || k == RamKey
      ensures k == CpuKey <==> this == CpuLevel
    {
      match this
      case CpuLevel => CpuKey
      case RamLevel => RamKey
    }
  }

  /** How the panel reads a level, with JavaScript's falsy-default rule: a
      non-zero number is used as it is, an absent value or zero falls back. A
      value of another dynamic type is read as absent. */
  function ReadLevel(data: Data, key: string, fallback: int): (n: int)
    ensures key in data && data[key].Int? && data[key].i != 0 ==> n == data[key].i
    ensures n == fallback || (key in data && data[key] == Int(n) && n != 0)
  {
    if key in data && data[key].Int? && data[key].i != 0 then data[key].i else fallback
  }

  /** The installed list as the panel reads it: empty when absent. */
  function ReadSoftware(data: Data): (r: seq<string>)
    ensures SoftwareKey in data && data[SoftwareKey].StrList? ==> r == data[SoftwareKey].items
    ensures r == [] || (SoftwareKey in data && data[SoftwareKey] == StrList(r))
  {
    if SoftwareKey in data && data[SoftwareKey].StrList? then data[SoftwareKey].items else []
  }

  /** The panel title; an absent label renders as nothing. */
  function ReadLabel(data: Data): (r: string)
    ensures LabelKey in data && data[LabelKey].Str? ==> r == data[LabelKey].s
    ensures r == "" || (LabelKey in data && data[LabelKey] == Str(r))
  {
    if LabelKey in data && data[LabelKey].Str? then data[LabelKey].s else ""
  }

  /** On a well-formed bag the level read is the stored level, or the fallback
      when none is stored, and the software read has no duplicates. */
  lemma ReadWellFormed(data: Data, key: string, fallback: int)
    requires WellFormed(data) && (key == CpuKey || key == RamKey)
    ensures key in data ==> ReadLevel(data, key, fallback) == data[key].i >= 1
    ensures key !in data ==> ReadLevel(data, key, fallback) == fallback
    ensures NoDuplicates(ReadSoftware(data))
  {
  }

  // ---------------------------------------------------------------------------
  // The software catalog, as consulted for install-button enablement
  // ---------------------------------------------------------------------------

  datatype CatalogEntry = CatalogEntry(id: string, name: string, category: string)

  const Catalog: seq<CatalogEntry> := [
    CatalogEntry("nginx", "Nginx Web Server", "SERVICE"),
    CatalogEntry("nodejs", "Node.js Runtime", "RUNTIME"),
    CatalogEntry("postgres", "PostgreSQL DB", "DB"),
    CatalogEntry("redis", "Redis Cache", "CACHE")
  ]

  /** One catalog card: it shows "Installed" with its button disabled exactly
      when `isInstalled`, and "Install" with an enabled button otherwise. */
  datatype CatalogRow = CatalogRow(entry: CatalogEntry, isInstalled: bool) {
    predicate ButtonDisabled() { isInstalled }
  }

  /** The catalog cards for a node whose installed list is `installed`. */
  function CatalogRows(entries: seq<CatalogEntry>, installed: seq<string>): (rows: seq<CatalogRow>)
    ensures |rows| == |entries|
    ensures forall i :: 0 <= i < |rows| ==>
      rows[i].entry == entries[i] && (rows[i].ButtonDisabled() <==> entries[i].id in installed)
  {
    if entries == [] then []
    else [CatalogRow(entries[0], entries[0].id in installed)] + CatalogRows(entries[1..], installed)
  }

  // ---------------------------------------------------------------------------
  // What the panel shows
  // ---------------------------------------------------------------------------

  datatype PanelView = PanelView(
    title: string, cpuLevel: int, ramLevel: int, installed: seq<string>, catalog: seq<CatalogRow>)

  /** The panel renders nothing without a selected node; otherwise it shows the
      node's levels with the display defaults cpu 1 and ram 2. */
  function View(selected: Option<Node>): (v: Option<PanelView>)
    ensures v.None? <==> selected.None?
    ensures v.Some? ==> |v.value.catalog| == |Catalog|
  {
    match selected
    case None => None
    case Some(node) =>
      var installed := ReadSoftware(node.data);
      Some(PanelView(
        ReadLabel(node.data),
        ReadLevel(node.data, CpuKey, 1),
        ReadLevel(node.data, RamKey, 2),
        installed,
        CatalogRows(Catalog, installed)))
  }

  /** On a well-formed node the panel shows the stored levels, or cpu 1 and
      ram 2 where none is stored, the stored installed list or nothing, and
      one card per catalog entry, disabled exactly when its id is installed. */
  lemma ViewWellFormed(node: Node)
    requires WellFormed(node.data)
    ensures var v := View(Some(node)).value;
      && v.title == ReadLabel(node.data)
      && v.cpuLevel == (if CpuKey in node.data then node.data[CpuKey].i else 1)
      && v.ramLevel == (if RamKey in node.data then node.data[RamKey].i else 2)
      && v.installed == (if SoftwareKey in node.data then node.data[SoftwareKey].items else [])
      && |v.catalog| == |Catalog|
      && forall i :: 0 <= i < |Catalog| ==>
           v.catalog[i].entry == Catalog[i] && (v.catalog[i].ButtonDisabled() <==> Catalog[i].id in v.installed)
  {
  }

  /** A node without game data shows cpu level 1, ram level 2 and nothing
      installed. */
  lemma ViewDefaults(node: Node)
    requires CpuKey !in node.data && RamKey !in node.data && SoftwareKey !in node.data
    ensures var v := View(Some(node)).value;
      v.cpuLevel == 1 && v.ramLevel == 2 && v.installed == []
  {
  }

  // ---------------------------------------------------------------------------
  // The patches issued by the buttons
  // ---------------------------------------------------------------------------

  /** `handleUpgrade(stat)`: a patch for `stat` alone, one above the level it
      reads (with fallback 1), hence strictly above any number stored there. */
  function UpgradePatch(data: Data, stat: Stat): (p: Patch)
    ensures p.Keys == {stat.Key()}
    ensures p[stat.Key()] == Int(ReadLevel(data, stat.Key(), 1) + 1)
    ensures stat.Key() in data && data[stat.Key()].Int? ==> p[stat.Key()].i > data[stat.Key()].i
    ensures WellFormed(data) ==> WellFormed(p) && p[stat.Key()].i >= 2
  {
    map[stat.Key() := Int(ReadLevel(data, stat.Key(), 1) + 1)]
  }

  /** `handleInstall(id)`: no patch when `id` is already installed; otherwise a
      patch for `software` alone, holding the old list followed by `id`. */
  function InstallPatch(data: Data, softwareId: string): (r: Option<Patch>)
    ensures r.None? <==> softwareId in ReadSoftware(data)
    ensures r.Some? ==> r.value.Keys == {SoftwareKey} && r.value[SoftwareKey].StrList?
    ensures r.Some? ==>
      var before, after := ReadSoftware(data), r.value[SoftwareKey].items;
      |after| == |before| + 1 && after[..|before|] == before && after[|before|] == softwareId
    ensures r.Some? && WellFormed(data) ==> WellFormed(r.value)
  {
    var installed := ReadSoftware(data);
    if softwareId in installed then None
    else
      assert forall i :: 0 <= i < |installed| ==> (installed + [softwareId])[i] == installed[i];
      Some(map[SoftwareKey := StrList(installed + [softwareId])])
  }

  /** The list with every occurrence of `id` taken out and nothing else, as
      the array filter of the uninstall button computes it. */
  function Without(s: seq<string>, id: string): (r: seq<string>)
    ensures id !in r
    ensures forall x :: x in r <==> x in s && x != id
    ensures |r| <= |s|
  {
    if s == [] then []
    else if s[0] == id then Without(s[1..], id)
    else [s[0]] + Without(s[1..], id)
  }

  /** Filtering an absent id gives the same list back. */
  lemma {:induction false} WithoutAbsent(s: seq<string>, id: string)
    requires id !in s
    ensures Without(s, id) == s
  {
    if s != [] {
      WithoutAbsent(s[1..], id);
    }
  }

  /** Filtering works piecewise over a concatenation, so the ids that stay keep
      their order. */
  lemma {:induction false} WithoutAppend(a: seq<string>, b: seq<string>, id: string)
    ensures Without(a + b, id) == Without(a, id) + Without(b, id)
  {
    if a != [] {
      assert (a + b)[1..] == a[1..] + b;
      WithoutAppend(a[1..], b, id);
    } else {
      assert a + b == b;
    }
  }

  /** Filtering removes every copy of `id` and keeps every copy of the others. */
  lemma {:induction false} WithoutMultiset(s: seq<string>, id: string)
    ensures multiset(Without(s, id)) == multiset(s)[id := 0]
  {
    if s != [] {
      assert s == [s[0]] + s[1..];
      WithoutMultiset(s[1..], id);
    }
  }

  /** Filtering a list without duplicates leaves one without duplicates. */
  lemma {:induction false} WithoutNoDuplicates(s: seq<string>, id: string)
    ensures NoDuplicates(s) ==> NoDuplicates(Without(s, id))
  {
    if s != [] && NoDuplicates(s) {
      var rest := Without(s[1..], id);
      assert NoDuplicates(s[1..]);
      WithoutNoDuplicates(s[1..], id);
      if s[0] != id {
        assert s[0] !in s[1..];
        assert s[0] !in rest;
        var r := [s[0]] + rest;
        forall i, j | 0 <= i < j < |r| ensures r[i] != r[j] {
          if i > 0 {
            assert r[i] == rest[i - 1] && r[j] == rest[j - 1];
          } else {
            assert r[j] in rest;
          }
        }
      }
    }
  }

  /** `handleUninstall(id)`: always a patch for `software` alone, holding the
      old list with `id` filtered out. */
  function UninstallPatch(data: Data, softwareId: string): (p: Patch)
    ensures p.Keys == {SoftwareKey} && p[SoftwareKey].StrList?
    ensures var before, after := ReadSoftware(data), p[SoftwareKey].items;
      after == Without(before, softwareId)
    ensures WellFormed(data) ==> WellFormed(p)
  {
    var installed := ReadSoftware(data);
    WithoutNoDuplicates(installed, softwareId);
    map[SoftwareKey := StrList(Without(installed, softwareId))]
  }

  /** What the store holds after it merges a handler's outcome: nothing
      changes when no patch was issued. */
  function MergeIfPatched(data: Data, request: Option<Patch>): (r: Data)
    ensures request.None? ==> r == data
    ensures request.Some? ==>
      && r.Keys == data.Keys + request.value.Keys
      && (forall k :: k in request.value ==> r[k] == request.value[k])
      && (forall k :: k in data && k !in request.value ==> r[k] == data[k])
  {
    match request
    case None => data
    case Some(patch) => Merge(data, patch)
  }

  // ---------------------------------------------------------------------------
  // Properties of a patch once merged
  // ---------------------------------------------------------------------------

  /** An upgrade changes its stat only: the stat becomes one above the level it
      read, every other key keeps its value. */
  lemma UpgradeTouchesOnlyStat(data: Data, stat: Stat)
    ensures var after := Merge(data, UpgradePatch(data, stat));
      && after.Keys == data.Keys + {stat.Key()}
      && after[stat.Key()] == Int(ReadLevel(data, stat.Key(), 1) + 1)
      && forall k :: k in data && k != stat.Key() ==> after[k] == data[k]
  {
  }

  /** `n` consecutive upgrades of one stat. */
  function Upgraded(data: Data, stat: Stat, n: nat): (r: Data)
    ensures forall k :: k != stat.Key() ==> (k in r <==> k in data) && (k in data ==> r[k] == data[k])
    ensures n > 0 ==> stat.Key() in r && r[stat.Key()].Int?
  {
    if n == 0 then data
    else
      var d := Upgraded(data, stat, n - 1);
      Merge(d, UpgradePatch(d, stat))
  }

  /** From a positive level, `n` upgrades raise the level read by exactly `n`
      and change no other key. */
  lemma {:induction false} UpgradedLevel(data: Data, stat: Stat, n: nat)
    requires ReadLevel(data, stat.Key(), 1) >= 1
    ensures ReadLevel(Upgraded(data, stat, n), stat.Key(), 1) == ReadLevel(data, stat.Key(), 1) + n
    ensures forall k :: k != stat.Key() ==>
      (k in Upgraded(data, stat, n) <==> k in data) &&
      (k in data ==> Upgraded(data, stat, n)[k] == data[k])
  {
    if n > 0 {
      var d := Upgraded(data, stat, n - 1);
      assert Upgraded(data, stat, n) == Merge(d, UpgradePatch(d, stat));
      UpgradedLevel(data, stat, n - 1);
    }
  }

  /** Starting from level 1 (stored or defaulted), `n` upgrades give level
      `1 + n`. */
  lemma UpgradedFromOne(data: Data, stat: Stat, n: nat)
    requires stat.Key() !in data || data[stat.Key()] == Int(1)
    ensures ReadLevel(Upgraded(data, stat, n), stat.Key(), 1) == 1 + n
  {
    UpgradedLevel(data, stat, n);
  }

  /** The displayed ram level defaults to 2 while an upgrade defaults to 1: on a
      bag without `ramLevel`, the first ram upgrade stores 2 and the display
      reads 2 both before and after it. */
  lemma RamDefaultDivergence(node: Node)
    requires RamKey !in node.data
    ensures View(Some(node)).value.ramLevel == 2
    ensures UpgradePatch(node.data, RamLevel)[RamKey] == Int(2)
    ensures View(Some(node.(data := Merge(node.data, UpgradePatch(node.data, RamLevel))))).value.ramLevel == 2
  {
  }

  /** After an install the id is in the list, and installing it again issues no
      patch, so a second install leaves the data as the first left it. */
  lemma {:induction false} InstallIdempotent(data: Data, softwareId: string)
    ensures var once := MergeIfPatched(data, InstallPatch(data, softwareId));
      && softwareId in ReadSoftware(once)
      && InstallPatch(once, softwareId).None?
      && MergeIfPatched(once, InstallPatch(once, softwareId)) == once
  {
    var r := InstallPatch(data, softwareId);
    if r.Some? {
      var once := Merge(data, r.value);
      var after := r.value[SoftwareKey].items;
      assert ReadSoftware(once) == after;
      assert after[|ReadSoftware(data)|] == softwareId;
    }
  }

  /** An install changes only `software`. */
  lemma InstallTouchesOnlySoftware(data: Data, softwareId: string)
    ensures var after := MergeIfPatched(data, InstallPatch(data, softwareId));
      forall k :: k != SoftwareKey ==> (k in after <==> k in data) && (k in data ==> after[k] == data[k])
  {
  }

  /** An uninstall changes only `software`, and afterwards the id is gone. */
  lemma UninstallTouchesOnlySoftware(data: Data, softwareId: string)
    ensures var after := Merge(data, UninstallPatch(data, softwareId));
      && softwareId !in ReadSoftware(after)
      && forall k :: k != SoftwareKey ==> (k in after <==> k in data) && (k in data ==> after[k] == data[k])
  {
  }

  /** Uninstalling an id that is not installed leaves the installed list as it
      was. */
  lemma UninstallAbsent(data: Data, softwareId: string)
    requires softwareId !in ReadSoftware(data)
    ensures ReadSoftware(Merge(data, UninstallPatch(data, softwareId))) == ReadSoftware(data)
  {
    WithoutAbsent(ReadSoftware(data), softwareId);
  }

  /** Install and uninstall keep a bag well formed, so the installed list never
      holds an id twice. */
  lemma SoftwarePatchesKeepWellFormed(data: Data, softwareId: string)
    requires WellFormed(data)
    ensures WellFormed(MergeIfPatched(data, InstallPatch(data, softwareId)))
    ensures WellFormed(Merge(data, UninstallPatch(data, softwareId)))
    ensures NoDuplicates(ReadSoftware(MergeIfPatched(data, InstallPatch(data, softwareId))))
  {
    var r := InstallPatch(data, softwareId);
    if r.Some? {
      MergeWellFormed(data, r.value);
    }
    MergeWellFormed(data, UninstallPatch(data, softwareId));
  }

  /** A catalog card shows "Installed" after its id is installed and "Install"
      after it is uninstalled. */
  lemma CatalogCardFollowsInstall(data: Data, i: nat)
    requires i < |Catalog|
    ensures CatalogRows(Catalog, ReadSoftware(MergeIfPatched(data, InstallPatch(data, Catalog[i].id))))[i].ButtonDisabled()
    ensures !CatalogRows(Catalog, ReadSoftware(Merge(data, UninstallPatch(data, Catalog[i].id))))[i].ButtonDisabled()
  {
    InstallIdempotent(data, Catalog[i].id);
  }
}
