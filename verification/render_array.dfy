/**
 * The part of a Drupal render array that the tiles container touches: the
 * ordered children of a region, each keyed, some of them carrying a `#block`
 * object with a column width and an optional Block-module weight.
 */
module RenderArray {
  import opened Wrappers

  /** The `#block` object of a render element. */
  datatype Block = Block(moduleName: string, delta: string, width: nat, weight: Option<int>)

  /**
   * A render element: `#block` (absent for non-block children such as help
   * text or markup), `#weight` and `#theme_wrappers`.
   */
  datatype Element = Element(block: Option<Block>, weight: Option<int>, themeWrappers: seq<string>)

  /** A child of a region: its array key and its element. */
  datatype Child = Child(key: string, element: Element)

  /** Theme wrapper appended to every block that is placed in a row. */
  const TileWrapper: string := "tiles_tile"

  predicate IsBlock(c: Child) {
    c.element.block.Some?
  }

  /** Column width of a child; children without a `#block` take no columns. */
  function Width(c: Child): nat {
    if IsBlock(c) then c.element.block.value.width else 0
  }

  /** The row copy of a block: `tiles_tile` appended to its theme wrappers. */
  function AsTile(c: Child): (t: Child)
    ensures t.key == c.key && t.element.block == c.element.block && t.element.weight == c.element.weight
    ensures t.element.themeWrappers == c.element.themeWrappers + [TileWrapper]
    ensures Width(t) == Width(c)
  {
    Child(c.key, c.element.(themeWrappers := c.element.themeWrappers + [TileWrapper]))
  }

  function AsTiles(cs: seq<Child>): (ts: seq<Child>)
    ensures |ts| == |cs|
    ensures forall i :: 0 <= i < |cs| ==> ts[i] == AsTile(cs[i])
  {
    seq(|cs|, i requires 0 <= i < |cs| => AsTile(cs[i]))
  }

  /** The children that carry a `#block`, in their original order. */
  function Blocks(cs: seq<Child>): seq<Child> {
    if cs == [] then []
    else (if IsBlock(cs[0]) then [cs[0]] else []) + Blocks(cs[1..])
  }

  /** The children without a `#block`, in their original order. */
  function NonBlocks(cs: seq<Child>): seq<Child> {
    if cs == [] then []
    else (if IsBlock(cs[0]) then [] else [cs[0]]) + NonBlocks(cs[1..])
  }

  lemma {:induction false} BlocksAppend(cs: seq<Child>, c: Child)
    ensures Blocks(cs + [c]) == Blocks(cs) + (if IsBlock(c) then [c] else [])
  {
    if cs == [] {
      assert [c][1..] == [];
    } else {
      assert (cs + [c])[0] == cs[0];
      assert (cs + [c])[1..] == cs[1..] + [c];
      BlocksAppend(cs[1..], c);
    }
  }

  lemma {:induction false} NonBlocksAppend(cs: seq<Child>, c: Child)
    ensures NonBlocks(cs + [c]) == NonBlocks(cs) + (if IsBlock(c) then [] else [c])
  {
    if cs == [] {
      assert [c][1..] == [];
    } else {
      assert (cs + [c])[0] == cs[0];
      assert (cs + [c])[1..] == cs[1..] + [c];
      NonBlocksAppend(cs[1..], c);
    }
  }
}
