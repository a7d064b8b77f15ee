/**
 * The merge rule of `TilesContainer::renderPage`: the blocks a container
 * assigns to a region are placed into the page, merged after any blocks the
 * Block module already put there, with their Block-module weights restored
 * and the region's `#sorted` flag set accordingly.
 */
module PageRender {
  import opened Wrappers
  import opened RenderArray

  /** A page region: its children and its `#sorted` flag. */
  datatype RegionArray = RegionArray(children: seq<Child>, sorted: Option<bool>)

  /** A page render array, by region name. */
  type Page = map<string, RegionArray>

  /** The element carries `#block->weight`. */
  predicate HasBlockWeight(c: Child) {
    c.element.block.Some? && c.element.block.value.weight.Some?
  }

  function RestoreWeight(c: Child): Child {
    if HasBlockWeight(c) then Child(c.key, c.element.(weight := c.element.block.value.weight)) else c
  }

  /**
   * Sets `#weight` to `#block->weight` on every element that carries one;
   * every other element and every other field is left alone.
   */
  function RestoreWeights(cs: seq<Child>): (r: seq<Child>)
    ensures |r| == |cs|
    ensures forall i :: 0 <= i < |cs| && HasBlockWeight(cs[i]) ==>
              && r[i].key == cs[i].key
              && r[i].element.block == cs[i].element.block
              && r[i].element.themeWrappers == cs[i].element.themeWrappers
              && r[i].element.weight == cs[i].element.block.value.weight
    ensures forall i :: 0 <= i < |cs| && !HasBlockWeight(cs[i]) ==> r[i] == cs[i]
  {
    seq(|cs|, i requires 0 <= i < |cs| => RestoreWeight(cs[i]))
  }

  /** Restoring weights twice changes nothing more than restoring them once. */
  lemma RestoreWeightsIdempotent(cs: seq<Child>)
    ensures RestoreWeights(RestoreWeights(cs)) == RestoreWeights(cs)
  {
  }

  /** `$blocks_sorted` after the loop: no element carries `#block->weight`. */
  function NoBlockWeights(cs: seq<Child>): (r: bool)
    ensures r <==> forall i :: 0 <= i < |cs| ==> !HasBlockWeight(cs[i])
  {
    if cs == [] then true
    else !HasBlockWeight(cs[0]) && NoBlockWeights(cs[1..])
  }

  /**
   * One region of `renderPage`. An empty block list leaves the page alone. A
   * region the page lacks becomes the block list, marked sorted. Otherwise the
   * blocks are appended to the region's children, Block-module weights are
   * restored over the merged list, and the region is marked sorted only if no
   * element carried such a weight.
   */
  function MergeRegion(page: Page, region: string, blocks: seq<Child>): (p: Page)
    ensures blocks == [] ==> p == page
    ensures blocks != [] ==> p.Keys == page.Keys + {region}
    ensures forall r :: r in page && r != region ==> p[r] == page[r]
    ensures blocks != [] && region !in page ==> p[region] == RegionArray(blocks, Some(true))
    ensures blocks != [] && region in page ==>
              && p[region].children == RestoreWeights(page[region].children + blocks)
              && (p[region].sorted == Some(true) <==>
                    forall i :: 0 <= i < |p[region].children| ==> !HasBlockWeight(p[region].children[i]))
              && p[region].sorted.Some?
  {
    if blocks == [] then page
    else if region in page then
      var merged := page[region].children + blocks;
      page[region := RegionArray(RestoreWeights(merged), Some(NoBlockWeights(merged)))]
    else
      page[region := RegionArray(blocks, Some(true))]
  }

  /** What `block_get_blocks_by_region` yields: nothing for an unknown region. */
  function BlocksFor(lookup: map<string, seq<Child>>, region: string): seq<Child> {
    if region in lookup then lookup[region] else []
  }

  /**
   * `renderPage`: merges the looked-up blocks into each of the container's
   * regions in turn. Regions outside the container's list, and regions whose
   * lookup yields nothing, are left as they were.
   */
  function RenderPage(page: Page, regions: seq<string>, lookup: map<string, seq<Child>>): (p: Page)
    ensures forall r :: r !in regions || BlocksFor(lookup, r) == [] ==>
              (r in p <==> r in page) && (r in page ==> p[r] == page[r])
    ensures forall r :: r in regions && BlocksFor(lookup, r) != [] ==> r in p
    decreases |regions|
  {
    if regions == [] then page
    else RenderPage(MergeRegion(page, regions[0], BlocksFor(lookup, regions[0])), regions[1..], lookup)
  }

  ghost predicate Distinct(xs: seq<string>) {
    forall i, j :: 0 <= i < j < |xs| ==> xs[i] != xs[j]
  }

  /**
   * For the distinct region names a container lists, each region ends up
   * exactly as merging its own blocks into the original page makes it.
   */
  lemma {:induction false} RenderPageRegion(page: Page, regions: seq<string>, lookup: map<string, seq<Child>>, r: string)
    requires Distinct(regions)
    requires r in regions
    ensures var merged := MergeRegion(page, r, BlocksFor(lookup, r));
            && (r in RenderPage(page, regions, lookup) <==> r in merged)
            && (r in merged ==> RenderPage(page, regions, lookup)[r] == merged[r])
    decreases |regions|
  {
    var next := MergeRegion(page, regions[0], BlocksFor(lookup, regions[0]));
    if regions[0] == r {
      assert r !in regions[1..] by {
        forall j | 0 <= j < |regions[1..]|
          ensures regions[1..][j] != r
        {
          assert regions[1..][j] == regions[j + 1];
        }
      }
    } else {
      assert r in regions[1..];
      assert Distinct(regions[1..]) by {
        forall i, j | 0 <= i < j < |regions[1..]|
          ensures regions[1..][i] != regions[1..][j]
        {
          assert regions[1..][i] == regions[i + 1] && regions[1..][j] == regions[j + 1];
        }
      }
      RenderPageRegion(next, regions[1..], lookup, r);
    }
  }
}
