/**
 * The client-side manifest of `tiles.js`: a snapshot of the tiles rendered in
 * one region, with contiguous weights and a `blockIndex` from each tile's
 * `module-delta` key to its position. The DOM scan is abstracted as the list
 * of `.tile` elements under the region, in document order, each with the DOM
 * identity of its closest enclosing region.
 */
module Manifests {
  import opened Wrappers

  /** The region element: its DOM identity and its `data-*` attributes. */
  datatype RegionNode = RegionNode(node: nat, name: string, context: Option<string>, kind: string)

  /** A `.tile` element found under a region; `owner` is its closest region. */
  datatype ScannedTile = ScannedTile(moduleName: string, delta: string, width: int, owner: nat)

  /** One entry of `manifest.blocks`. */
  datatype ManifestBlock = ManifestBlock(moduleName: string, delta: string, region: string, width: int, weight: int)

  /** The manifest sent to the server; `kind` is its `type` field. */
  datatype Manifest = Manifest(
    region: string,
    activeContext: Option<string>,
    kind: string,
    blockIndex: map<string, int>,
    blocks: seq<ManifestBlock>)

  /** The `blockIndex` key of a tile: module and delta joined by a dash. */
  function IndexKey(moduleName: string, delta: string): string {
    moduleName + "-" + delta
  }

  function Key(b: ManifestBlock): string {
    IndexKey(b.moduleName, b.delta)
  }

  /** JavaScript truthiness of an attribute value: defined and non-empty. */
  predicate Truthy(s: Option<string>) {
    s.Some? && s.value != ""
  }

  /** The tiles whose closest region is `node`, in scan order. */
  function Owned(tiles: seq<ScannedTile>, node: nat): seq<ScannedTile> {
    if tiles == [] then []
    else
      var last := tiles[|tiles| - 1];
      Owned(tiles[..|tiles| - 1], node) + (if last.owner == node then [last] else [])
  }

  /** The manifest entry for a scanned tile placed at position `weight`. */
  function EntryOf(t: ScannedTile, region: string, weight: int): ManifestBlock {
    ManifestBlock(t.moduleName, t.delta, region, t.width, weight)
  }

  /**
   * `index` maps exactly the keys present in `blocks`, each to the last
   * position that carries it (a later tile with the same key overwrites).
   */
  ghost predicate IndexesLastOccurrence(index: map<string, int>, blocks: seq<ManifestBlock>) {
    && (forall i :: 0 <= i < |blocks| ==> Key(blocks[i]) in index)
    && (forall k :: k in index ==> 0 <= index[k] < |blocks| && Key(blocks[index[k]]) == k)
    && (forall k, j :: k in index && index[k] < j < |blocks| ==> Key(blocks[j]) != k)
  }

  ghost predicate DistinctKeys(blocks: seq<ManifestBlock>) {
    forall i, j :: 0 <= i < j < |blocks| ==> Key(blocks[i]) != Key(blocks[j])
  }

  /** `blockIndex` and `blocks` agree: every key maps to its block's position. */
  ghost predicate Consistent(m: Manifest) {
    && (forall i :: 0 <= i < |m.blocks| ==> Key(m.blocks[i]) in m.blockIndex && m.blockIndex[Key(m.blocks[i])] == i)
    && (forall k :: k in m.blockIndex ==> 0 <= m.blockIndex[k] < |m.blocks| && Key(m.blocks[m.blockIndex[k]]) == k)
  }

  /** When no two tiles share a key, the last occurrence is the only one. */
  lemma LastOccurrenceIsPosition(m: Manifest)
    requires IndexesLastOccurrence(m.blockIndex, m.blocks)
    requires DistinctKeys(m.blocks)
    ensures Consistent(m)
  {
  }

  /**
   * `regionManifest`: every scanned tile whose closest region is this region
   * gets the next weight, so the i-th kept tile has weight i; tiles of nested
   * regions are skipped and take no weight. The active context is the
   * region's `data-context` when truthy, else the global setting.
   */
  method RegionManifest(region: RegionNode, tiles: seq<ScannedTile>, activeContextSetting: Option<string>)
    returns (m: Manifest)
    ensures m.region == region.name && m.kind == region.kind
    ensures m.activeContext == (if Truthy(region.context) then region.context else activeContextSetting)
    ensures |m.blocks| == |Owned(tiles, region.node)|
    ensures forall i :: 0 <= i < |m.blocks| ==> m.blocks[i] == EntryOf(Owned(tiles, region.node)[i], region.name, i)
    ensures forall i :: 0 <= i < |m.blocks| ==> m.blocks[i].weight == i && m.blocks[i].region == region.name
    ensures IndexesLastOccurrence(m.blockIndex, m.blocks)
  {
    var activeContext := if Truthy(region.context) then region.context else activeContextSetting;
    var blockIndex: map<string, int> := map[];
    var blocks: seq<ManifestBlock> := [];
    var weight := 0;
    var i := 0;
    while i < |tiles|
      invariant 0 <= i <= |tiles|
      invariant weight == |blocks|
      invariant |blocks| == |Owned(tiles[..i], region.node)|
      invariant forall j :: 0 <= j < |blocks| ==> blocks[j] == EntryOf(Owned(tiles[..i], region.node)[j], region.name, j)
      invariant IndexesLastOccurrence(blockIndex, blocks)
    {
      var t := tiles[i];
      assert tiles[..i + 1][..i] == tiles[..i];
      assert Owned(tiles[..i + 1], region.node) == Owned(tiles[..i], region.node) + (if t.owner == region.node then [t] else []);
      if t.owner == region.node {
        var entry := ManifestBlock(t.moduleName, t.delta, region.name, t.width, weight);
        blockIndex := blockIndex[IndexKey(t.moduleName, t.delta) := weight];
        blocks := blocks + [entry];
        weight := weight + 1;
      }
      i := i + 1;
    }
    assert tiles[..i] == tiles;
    m := Manifest(region.name, activeContext, region.kind, blockIndex, blocks);
  }
}
