/**
 * The manifest mutators of `tiles.js`: `moveLeft` / `moveRight` exchange the
 * weight of the clicked tile with its neighbour's, and `widthPlus` /
 * `widthMinus` step its width through the configured width steps. A
 * successful result is the manifest the handler posts to the server; a
 * failure means no request is made.
 */
module Mutators {
  import opened Wrappers
  import opened Manifests

  /** The clicked tile: its `data-module`, `data-delta` and parsed `data-width`. */
  datatype TileRef = TileRef(moduleName: string, delta: string, width: int)

  /** Why a handler makes no request. */
  datatype TileError =
    | AlreadyFirst
    | AlreadyLast
    | AlreadyFullWidth
    | AlreadyMinimumWidth
      /** The handler throws a TypeError reading a block that is not there. */
    | Undefined

  /** The alert a boundary error shows; a thrown TypeError shows none. */
  function Alert(e: TileError): Option<string> {
    match e
    case AlreadyFirst => Some("This is already the first block in this region.")
    case AlreadyLast => Some("This is already the last block in this region.")
    case AlreadyFullWidth => Some("This tile is already full width.")
    case AlreadyMinimumWidth => Some("This tile is already at the minimum width.")
    case Undefined => None
  }

  predicate IsTile(b: ManifestBlock, t: TileRef) {
    b.moduleName == t.moduleName && b.delta == t.delta
  }

  function KeyOf(t: TileRef): string {
    IndexKey(t.moduleName, t.delta)
  }

  function Weights(blocks: seq<ManifestBlock>): (ws: seq<int>)
    ensures |ws| == |blocks|
    ensures forall i :: 0 <= i < |blocks| ==> ws[i] == blocks[i].weight
  {
    seq(|blocks|, i requires 0 <= i < |blocks| => blocks[i].weight)
  }

  /**
   * Exchanges the weights of entries `i` and `j`. The order of `blocks`, every
   * other field and the index stay as they were.
   */
  function SwapWeights(m: Manifest, i: int, j: int): (r: Manifest)
    requires 0 <= i < |m.blocks| && 0 <= j < |m.blocks|
    ensures r.region == m.region && r.activeContext == m.activeContext && r.kind == m.kind
    ensures r.blockIndex == m.blockIndex && |r.blocks| == |m.blocks|
    ensures forall p :: 0 <= p < |m.blocks| ==> r.blocks[p] == m.blocks[p].(weight := r.blocks[p].weight)
    ensures r.blocks[i].weight == m.blocks[j].weight && r.blocks[j].weight == m.blocks[i].weight
    ensures forall p :: 0 <= p < |m.blocks| && p != i && p != j ==> r.blocks[p] == m.blocks[p]
    ensures multiset(Weights(r.blocks)) == multiset(Weights(m.blocks))
    ensures Consistent(m) ==> Consistent(r)
  {
    var wi := m.blocks[i].weight;
    var wj := m.blocks[j].weight;
    var r := m.(blocks := m.blocks[i := m.blocks[i].(weight := wj)][j := m.blocks[j].(weight := wi)]);
    assert Weights(r.blocks) == Weights(m.blocks)[i := wj][j := wi];
    r
  }

  /** `moveLeft`: swap the tile's weight with its predecessor's. */
  function MoveLeft(m: Manifest, t: TileRef): (r: Result<Manifest, TileError>)
    ensures r == Failure(AlreadyFirst) <==> |m.blocks| > 0 && IsTile(m.blocks[0], t)
    ensures r.Failure? ==> r.error == AlreadyFirst || r.error == Undefined
    ensures r.Failure? && Alert(r.error).Some? <==> |m.blocks| > 0 && IsTile(m.blocks[0], t)
    ensures r.Success? <==>
              && |m.blocks| > 0 && !IsTile(m.blocks[0], t)
              && KeyOf(t) in m.blockIndex && 0 < m.blockIndex[KeyOf(t)] < |m.blocks|
    ensures r.Success? ==>
              && KeyOf(t) in m.blockIndex
              && 0 < m.blockIndex[KeyOf(t)] < |m.blocks|
              && r.value == SwapWeights(m, m.blockIndex[KeyOf(t)] - 1, m.blockIndex[KeyOf(t)])
  {
    if |m.blocks| == 0 then Failure(Undefined)
    else if IsTile(m.blocks[0], t) then Failure(AlreadyFirst)
    else if KeyOf(t) !in m.blockIndex then Failure(Undefined)
    else
      var i := m.blockIndex[KeyOf(t)];
      if 0 < i < |m.blocks| then Success(SwapWeights(m, i - 1, i)) else Failure(Undefined)
  }

  /** `moveRight`: swap the tile's weight with its successor's. */
  function MoveRight(m: Manifest, t: TileRef): (r: Result<Manifest, TileError>)
    ensures r == Failure(AlreadyLast) <==> |m.blocks| > 0 && IsTile(m.blocks[|m.blocks| - 1], t)
    ensures r.Failure? ==> r.error == AlreadyLast || r.error == Undefined
    ensures r.Failure? && Alert(r.error).Some? <==> |m.blocks| > 0 && IsTile(m.blocks[|m.blocks| - 1], t)
    ensures r.Success? <==>
              && |m.blocks| > 0 && !IsTile(m.blocks[|m.blocks| - 1], t)
              && KeyOf(t) in m.blockIndex && 0 <= m.blockIndex[KeyOf(t)] < |m.blocks| - 1
    ensures r.Success? ==>
              && KeyOf(t) in m.blockIndex
              && 0 <= m.blockIndex[KeyOf(t)] < |m.blocks| - 1
              && r.value == SwapWeights(m, m.blockIndex[KeyOf(t)] + 1, m.blockIndex[KeyOf(t)])
  {
    if |m.blocks| == 0 then Failure(Undefined)
    else if IsTile(m.blocks[|m.blocks| - 1], t) then Failure(AlreadyLast)
    else if KeyOf(t) !in m.blockIndex then Failure(Undefined)
    else
      var i := m.blockIndex[KeyOf(t)];
      if 0 <= i < |m.blocks| - 1 then Success(SwapWeights(m, i + 1, i)) else Failure(Undefined)
  }

  /** The reference a manifest entry would have as the clicked tile. */
  function RefOf(b: ManifestBlock): TileRef {
    TileRef(b.moduleName, b.delta, b.width)
  }

  /**
   * In a consistent manifest, moving the tile at position `p` left fails on
   * the first tile and otherwise exchanges exactly the weights at `p - 1`
   * and `p`.
   */
  lemma MoveLeftAt(m: Manifest, t: TileRef, p: int)
    requires Consistent(m)
    requires 0 <= p < |m.blocks| && IsTile(m.blocks[p], t)
    ensures p == 0 ==> MoveLeft(m, t) == Failure(AlreadyFirst)
    ensures p > 0 ==> MoveLeft(m, t) == Success(SwapWeights(m, p - 1, p))
  {
  }

  /**
   * In a consistent manifest, moving the tile at position `p` right fails on
   * the last tile and otherwise exchanges exactly the weights at `p` and
   * `p + 1`.
   */
  lemma MoveRightAt(m: Manifest, t: TileRef, p: int)
    requires Consistent(m)
    requires 0 <= p < |m.blocks| && IsTile(m.blocks[p], t)
    ensures p == |m.blocks| - 1 ==> MoveRight(m, t) == Failure(AlreadyLast)
    ensures p < |m.blocks| - 1 ==> MoveRight(m, t) == Success(SwapWeights(m, p + 1, p))
  {
  }

  lemma SwapTwice(m: Manifest, i: int, j: int)
    requires 0 <= i < |m.blocks| && 0 <= j < |m.blocks|
    ensures SwapWeights(SwapWeights(m, i, j), j, i) == m
  {
  }

  /** Swapping back: moving the entry now at `p` right undoes a left move of `p + 1`. */
  lemma UndoMoveLeft(m: Manifest, p: int)
    requires Consistent(m)
    requires 0 <= p < |m.blocks| - 1
    ensures MoveRight(SwapWeights(m, p, p + 1), RefOf(m.blocks[p])) == Success(m)
  {
    var moved := SwapWeights(m, p, p + 1);
    assert IsTile(moved.blocks[p], RefOf(m.blocks[p]));
    MoveRightAt(moved, RefOf(m.blocks[p]), p);
    SwapTwice(m, p, p + 1);
  }

  /** Swapping back: moving the entry now at `p` left undoes a right move of `p - 1`. */
  lemma UndoMoveRight(m: Manifest, p: int)
    requires Consistent(m)
    requires 0 < p < |m.blocks|
    ensures MoveLeft(SwapWeights(m, p, p - 1), RefOf(m.blocks[p])) == Success(m)
  {
    var moved := SwapWeights(m, p, p - 1);
    assert IsTile(moved.blocks[p], RefOf(m.blocks[p]));
    MoveLeftAt(moved, RefOf(m.blocks[p]), p);
    SwapTwice(m, p, p - 1);
  }

  /**
   * On the manifest value `moveLeft` posts, moving the former predecessor
   * (which sits at the same position, since only weights changed) right
   * restores the original manifest. The handlers themselves never reuse a
   * posted manifest: each click rebuilds one from the re-rendered region.
   */
  lemma MoveLeftThenRight(m: Manifest, t: TileRef, p: int)
    requires Consistent(m)
    requires 0 < p < |m.blocks| && IsTile(m.blocks[p], t)
    ensures MoveLeft(m, t).Success?
    ensures MoveRight(MoveLeft(m, t).value, RefOf(m.blocks[p - 1])) == Success(m)
  {
    MoveLeftAt(m, t, p);
    UndoMoveLeft(m, p - 1);
  }

  /**
   * On the manifest value `moveRight` posts, moving the former successor
   * left restores the original manifest.
   */
  lemma MoveRightThenLeft(m: Manifest, t: TileRef, p: int)
    requires Consistent(m)
    requires 0 <= p < |m.blocks| - 1 && IsTile(m.blocks[p], t)
    ensures MoveRight(m, t).Success?
    ensures MoveLeft(MoveRight(m, t).value, RefOf(m.blocks[p + 1])) == Success(m)
  {
    MoveRightAt(m, t, p);
    UndoMoveRight(m, p + 1);
  }

  /** Weights 0, 1, 2 and a move left of the middle tile give weights 1, 0, 2. */
  lemma MoveLeftExample(m: Manifest, t: TileRef)
    requires Consistent(m)
    requires Weights(m.blocks) == [0, 1, 2]
    requires IsTile(m.blocks[1], t)
    ensures MoveLeft(m, t).Success?
    ensures Weights(MoveLeft(m, t).value.blocks) == [1, 0, 2]
  {
  }

  /** `$.inArray`: the first position of `x` in `steps`, or -1. */
  function InArray(x: int, steps: seq<int>): (k: int)
    ensures -1 <= k < |steps|
    ensures k == -1 <==> x !in steps
    ensures k >= 0 ==> steps[k] == x
    ensures forall j :: 0 <= j < k ==> steps[j] != x
  {
    if steps == [] then -1
    else if steps[0] == x then 0
    else
      var k := InArray(x, steps[1..]);
      if k == -1 then -1 else k + 1
  }

  /** Sets the width of entry `p`; nothing else changes. */
  function SetWidth(m: Manifest, p: int, width: int): (r: Manifest)
    requires 0 <= p < |m.blocks|
    ensures r.region == m.region && r.activeContext == m.activeContext && r.kind == m.kind
    ensures r.blockIndex == m.blockIndex && |r.blocks| == |m.blocks|
    ensures r.blocks[p] == m.blocks[p].(width := width)
    ensures forall q :: 0 <= q < |m.blocks| && q != p ==> r.blocks[q] == m.blocks[q]
    ensures Weights(r.blocks) == Weights(m.blocks)
    ensures Consistent(m) ==> Consistent(r)
  {
    m.(blocks := m.blocks[p := m.blocks[p].(width := width)])
  }

  /**
   * `widthPlus`: the width one step above the tile's current width, looked up
   * by the first position of that width in `steps`; a width not in `steps`
   * counts as position -1, so it moves to the first step.
   */
  function WidthPlus(m: Manifest, t: TileRef, steps: seq<int>): (r: Result<Manifest, TileError>)
    ensures r == Failure(AlreadyFullWidth) <==> InArray(t.width, steps) + 1 == |steps|
    ensures r.Failure? ==> r.error == AlreadyFullWidth || r.error == Undefined
    ensures r.Failure? && Alert(r.error).Some? <==> InArray(t.width, steps) + 1 == |steps|
    ensures r.Success? <==>
              && InArray(t.width, steps) + 1 < |steps|
              && KeyOf(t) in m.blockIndex && 0 <= m.blockIndex[KeyOf(t)] < |m.blocks|
    ensures r.Success? ==>
              && KeyOf(t) in m.blockIndex
              && 0 <= m.blockIndex[KeyOf(t)] < |m.blocks|
              && r.value == SetWidth(m, m.blockIndex[KeyOf(t)], steps[InArray(t.width, steps) + 1])
  {
    var k := InArray(t.width, steps);
    if k + 1 >= |steps| then Failure(AlreadyFullWidth)
    else if KeyOf(t) !in m.blockIndex || !(0 <= m.blockIndex[KeyOf(t)] < |m.blocks|) then Failure(Undefined)
    else Success(SetWidth(m, m.blockIndex[KeyOf(t)], steps[k + 1]))
  }

  /**
   * `widthMinus`: the width one step below the tile's current width; a width
   * not in `steps` counts as position -1 and has no step below it.
   */
  function WidthMinus(m: Manifest, t: TileRef, steps: seq<int>): (r: Result<Manifest, TileError>)
    ensures r == Failure(AlreadyMinimumWidth) <==> InArray(t.width, steps) <= 0
    ensures r.Failure? ==> r.error == AlreadyMinimumWidth || r.error == Undefined
    ensures r.Failure? && Alert(r.error).Some? <==> InArray(t.width, steps) <= 0
    ensures r.Success? <==>
              && InArray(t.width, steps) > 0
              && KeyOf(t) in m.blockIndex && 0 <= m.blockIndex[KeyOf(t)] < |m.blocks|
    ensures r.Success? ==>
              && KeyOf(t) in m.blockIndex
              && 0 <= m.blockIndex[KeyOf(t)] < |m.blocks|
              && r.value == SetWidth(m, m.blockIndex[KeyOf(t)], steps[InArray(t.width, steps) - 1])
  {
    var k := InArray(t.width, steps);
    if k - 1 < 0 then Failure(AlreadyMinimumWidth)
    else if KeyOf(t) !in m.blockIndex || !(0 <= m.blockIndex[KeyOf(t)] < |m.blocks|) then Failure(Undefined)
    else Success(SetWidth(m, m.blockIndex[KeyOf(t)], steps[k - 1]))
  }

  /** The width steps are distinct, as the keys of the steps setting are. */
  ghost predicate DistinctSteps(steps: seq<int>) {
    forall i, j :: 0 <= i < j < |steps| ==> steps[i] != steps[j]
  }

  /**
   * Resizing the tile at position `p` whose width is step `k`: `widthPlus`
   * sets it to step `k + 1`, or fails at the last step; `widthMinus` sets it
   * to step `k - 1`, or fails at step 0. Nothing but that width changes.
   */
  lemma ResizeAt(m: Manifest, t: TileRef, p: int, steps: seq<int>, k: int)
    requires Consistent(m)
    requires 0 <= p < |m.blocks| && IsTile(m.blocks[p], t)
    requires DistinctSteps(steps) && 0 <= k < |steps| && steps[k] == t.width
    ensures k + 1 < |steps| ==> WidthPlus(m, t, steps) == Success(SetWidth(m, p, steps[k + 1]))
    ensures k + 1 == |steps| ==> WidthPlus(m, t, steps) == Failure(AlreadyFullWidth)
    ensures k > 0 ==> WidthMinus(m, t, steps) == Success(SetWidth(m, p, steps[k - 1]))
    ensures k == 0 ==> WidthMinus(m, t, steps) == Failure(AlreadyMinimumWidth)
  {
  }

  /**
   * A width outside `steps` is a boundary for `widthMinus`, while `widthPlus`
   * jumps to the first step.
   */
  lemma ResizeFromUnknownWidth(m: Manifest, t: TileRef, p: int, steps: seq<int>)
    requires Consistent(m)
    requires 0 <= p < |m.blocks| && IsTile(m.blocks[p], t)
    requires t.width !in steps
    ensures WidthMinus(m, t, steps) == Failure(AlreadyMinimumWidth)
    ensures |steps| > 0 ==> WidthPlus(m, t, steps) == Success(SetWidth(m, p, steps[0]))
    ensures |steps| == 0 ==> WidthPlus(m, t, steps) == Failure(AlreadyFullWidth)
  {
  }

  /**
   * Growing a tile one step and then shrinking it, as the re-rendered tile
   * with its new width, restores the manifest.
   */
  lemma WidthPlusThenMinus(m: Manifest, t: TileRef, p: int, steps: seq<int>, k: int)
    requires Consistent(m)
    requires 0 <= p < |m.blocks| && IsTile(m.blocks[p], t) && m.blocks[p].width == t.width
    requires DistinctSteps(steps) && 0 <= k < |steps| - 1 && steps[k] == t.width
    ensures WidthPlus(m, t, steps).Success?
    ensures WidthMinus(WidthPlus(m, t, steps).value, t.(width := steps[k + 1]), steps) == Success(m)
  {
    ResizeAt(m, t, p, steps, k);
    var grown := SetWidth(m, p, steps[k + 1]);
    ResizeAt(grown, t.(width := steps[k + 1]), p, steps, k + 1);
    assert SetWidth(grown, p, steps[k]).blocks == m.blocks;
  }

  /** Shrinking a tile one step and then growing it restores the manifest. */
  lemma WidthMinusThenPlus(m: Manifest, t: TileRef, p: int, steps: seq<int>, k: int)
    requires Consistent(m)
    requires 0 <= p < |m.blocks| && IsTile(m.blocks[p], t) && m.blocks[p].width == t.width
    requires DistinctSteps(steps) && 0 < k < |steps| && steps[k] == t.width
    ensures WidthMinus(m, t, steps).Success?
    ensures WidthPlus(WidthMinus(m, t, steps).value, t.(width := steps[k - 1]), steps) == Success(m)
  {
    ResizeAt(m, t, p, steps, k);
    var shrunk := SetWidth(m, p, steps[k - 1]);
    ResizeAt(shrunk, t.(width := steps[k - 1]), p, steps, k - 1);
    assert SetWidth(shrunk, p, steps[k]).blocks == m.blocks;
  }

  /** With steps 1, 2, 3, 4 a tile of width 2 grows to 3 and shrinks to 1. */
  lemma ResizeExample(m: Manifest, t: TileRef, p: int)
    requires Consistent(m)
    requires 0 <= p < |m.blocks| && IsTile(m.blocks[p], t) && t.width == 2
    ensures WidthPlus(m, t, [1, 2, 3, 4]) == Success(SetWidth(m, p, 3))
    ensures WidthMinus(m, t, [1, 2, 3, 4]) == Success(SetWidth(m, p, 1))
  {
  }
}
