/** The value shapes the canvas works with: the per-node data bag with its
    shallow merge, and the node and edge records of the graph-canvas library
    as the game uses them. */
module Flow {

  datatype Option<T> = None | Some(value: T)

  /** One value of the untyped data bag `data: any`: a number, a string or an
      array of strings (the installed software). */
  datatype Val = Int(i: int) | Str(s: string) | StrList(items: seq<string>)

  /** A node's data bag, and a patch to merge into it. */
  type Data = map<string, Val>
  type Patch = map<string, Val>

  /** The patch spread over the data: every key of the patch takes the
      patch's value, every other key keeps its old value, and no key is
      dropped. */
  function Merge(data: Data, patch: Patch): (r: Data)
    ensures r.Keys == data.Keys + patch.Keys
    ensures forall k :: k in patch ==> r[k] == patch[k]
    ensures forall k :: k in data && k !in patch ==> r[k] == data[k]
  {
    data + patch
  }

  /** Merging the same patch a second time changes nothing. */
  lemma MergeTwice(data: Data, patch: Patch)
    ensures Merge(Merge(data, patch), patch) == Merge(data, patch)
  {
  }

  /** Canvas-space coordinates, as the viewport transform returns them. */
  datatype Position = Position(x: int, y: int)

  /** A placed node. `nodeType` is the library's `type` field ('input' for the
      anchor, 'default' for dropped nodes). */
  datatype Node = Node(id: string, nodeType: string, position: Position, data: Data, deletable: bool)

  /** A connection between two node ids. */
  datatype Edge = Edge(id: string, source: string, target: string)

  predicate NoDuplicates(s: seq<string>) {
    forall i, j :: 0 <= i < j < |s| ==> s[i] != s[j]
  }

  /** The key names of the game data. The installed list lives under
      `software`. */
  const CpuKey: string := "cpuLevel"
  const RamKey: string := "ramLevel"
  const SoftwareKey: string := "software"
  const LabelKey: string := "label"

  /** A level value as the game writes it: a positive integer. */
  predicate LevelOk(data: Data, key: string) {
    key in data ==> data[key].Int? && data[key].i >= 1
  }

  /** The shape every modelled operation keeps: both levels are positive
      integers when present, and the installed software, when present, is a
      list of strings without duplicates. */
  predicate WellFormed(data: Data) {
    && LevelOk(data, CpuKey)
    && LevelOk(data, RamKey)
    && (SoftwareKey in data ==> data[SoftwareKey].StrList? && NoDuplicates(data[SoftwareKey].items))
  }

  /** Merging a well-formed patch into a well-formed bag keeps it well formed. */
  lemma MergeWellFormed(data: Data, patch: Patch)
    requires WellFormed(data) && WellFormed(patch)
    ensures WellFormed(Merge(data, patch))
  {
  }
}
