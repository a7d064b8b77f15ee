/**
 * The server-side row packer, `TilesContainer::wrapRegion`: one greedy
 * left-to-right pass over a region's children that moves every block into
 * the current row while it still fits under the column budget, and opens a
 * new row when it does not.
 *
 * Rows are kept by position: row `k` is the PHP key `row_k`. Every row carries
 * the fixed theme wrapper `tiles_row` and the row container `tiles_region`;
 * those constant lists are not carried here.
 */
module RowPacker {
  import opened RenderArray

  /**
   * A region after wrapping: the children left at the top level, the
   * `#original` stash of every packed block, and the rows.
   */
  datatype WrappedRegion = WrappedRegion(rest: seq<Child>, original: seq<Child>, rows: seq<seq<Child>>)

  /** Total column width of a row. */
  function RowWidth(row: seq<Child>): nat {
    if row == [] then 0 else Width(row[0]) + RowWidth(row[1..])
  }

  /** All rows concatenated in row order. */
  function Flatten(rows: seq<seq<Child>>): seq<Child> {
    if rows == [] then [] else rows[0] + Flatten(rows[1..])
  }

  /**
   * Row `row` was opened by its first block because that block did not fit
   * after `prev`, and every later block of the row was added because it fit.
   */
  ghost predicate OpenedRow(prev: seq<Child>, row: seq<Child>, maxCols: int) {
    && row != []
    && (|row| == 1 || RowWidth(row) <= maxCols)
    && RowWidth(prev) + Width(row[0]) > maxCols
  }

  /**
   * `rows` is what the greedy pass makes of `tiles` under the budget
   * `maxCols`: `row_0` always exists and only holds blocks that fit from a
   * zero column count; every later row is non-empty and starts with a block
   * that would have overflowed the row before it.
   */
  ghost predicate GreedyPacking(rows: seq<seq<Child>>, tiles: seq<Child>, maxCols: int) {
    && |rows| >= 1
    && Flatten(rows) == tiles
    && (rows[0] == [] || RowWidth(rows[0]) <= maxCols)
    && forall k :: 1 <= k < |rows| ==> OpenedRow(rows[k - 1], rows[k], maxCols)
  }

  /** One step of the pass: add `t` to the last row if it fits, else open a row. */
  function Place(rows: seq<seq<Child>>, t: Child, maxCols: int): seq<seq<Child>>
    requires |rows| >= 1
  {
    var last := rows[|rows| - 1];
    if RowWidth(last) + Width(t) <= maxCols then rows[..|rows| - 1] + [last + [t]]
    else rows + [[t]]
  }

  lemma {:induction false} RowWidthAppend(row: seq<Child>, c: Child)
    ensures RowWidth(row + [c]) == RowWidth(row) + Width(c)
  {
    if row == [] {
      assert [c][1..] == [];
    } else {
      assert (row + [c])[1..] == row[1..] + [c];
      RowWidthAppend(row[1..], c);
    }
  }

  lemma {:induction false} RowWidthBoundsElement(row: seq<Child>, j: int)
    requires 0 <= j < |row|
    ensures Width(row[j]) <= RowWidth(row)
  {
    if j > 0 {
      RowWidthBoundsElement(row[1..], j - 1);
    }
  }

  lemma {:induction false} FlattenAppend(rows: seq<seq<Child>>, r: seq<Child>)
    ensures Flatten(rows + [r]) == Flatten(rows) + r
  {
    if rows == [] {
      assert [r][1..] == [];
    } else {
      assert (rows + [r])[1..] == rows[1..] + [r];
      FlattenAppend(rows[1..], r);
    }
  }

  lemma {:induction false} FlattenEmpty(rows: seq<seq<Child>>, k: int)
    requires Flatten(rows) == []
    requires 0 <= k < |rows|
    ensures rows[k] == []
  {
    if k > 0 {
      FlattenEmpty(rows[1..], k - 1);
    }
  }

  /** Placing one more block keeps the packing greedy. */
  lemma PlacePreservesGreedy(rows: seq<seq<Child>>, tiles: seq<Child>, t: Child, maxCols: int)
    requires GreedyPacking(rows, tiles, maxCols)
    ensures GreedyPacking(Place(rows, t, maxCols), tiles + [t], maxCols)
  {
    var n := |rows|;
    var last := rows[n - 1];
    var front := rows[..n - 1];
    assert rows == front + [last];
    FlattenAppend(front, last);
    var r := Place(rows, t, maxCols);
    if RowWidth(last) + Width(t) <= maxCols {
      assert r == front + [last + [t]];
      FlattenAppend(front, last + [t]);
      RowWidthAppend(last, t);
      if n >= 2 {
        assert OpenedRow(rows[n - 2], last, maxCols);
        assert (last + [t])[0] == last[0];
        assert OpenedRow(r[n - 2], r[n - 1], maxCols);
      }
      forall k | 1 <= k < |r|
        ensures OpenedRow(r[k - 1], r[k], maxCols)
      {
        if k < n - 1 {
          assert r[k - 1] == rows[k - 1] && r[k] == rows[k];
        }
      }
    } else {
      FlattenAppend(rows, [t]);
      forall k | 1 <= k < |r|
        ensures OpenedRow(r[k - 1], r[k], maxCols)
      {
        if k < n {
          assert r[k - 1] == rows[k - 1] && r[k] == rows[k];
        }
      }
    }
  }

  /** Every greedy packing of a non-empty sequence ends with a `Place` step. */
  lemma Unplace(rows: seq<seq<Child>>, tiles: seq<Child>, t: Child, maxCols: int) returns (prior: seq<seq<Child>>)
    requires GreedyPacking(rows, tiles + [t], maxCols)
    ensures GreedyPacking(prior, tiles, maxCols)
    ensures rows == Place(prior, t, maxCols)
  {
    var n := |rows|;
    var last := rows[n - 1];
    var front := rows[..n - 1];
    assert rows == front + [last];
    FlattenAppend(front, last);
    if n == 1 {
      assert front == [];
    }
    assert last != [] by {
      if n >= 2 {
        assert OpenedRow(rows[n - 2], last, maxCols);
      }
    }
    var init := last[..|last| - 1];
    assert last == init + [t] by {
      assert Flatten(front) + last == tiles + [t];
      assert last[|last| - 1] == (tiles + [t])[|tiles|];
    }
    assert Flatten(front) + init == tiles by {
      var a := Flatten(front) + init;
      assert a + [t] == tiles + [t];
      assert a == (a + [t])[..|a|];
      assert tiles == (tiles + [t])[..|tiles|];
    }
    RowWidthAppend(init, t);
    if n >= 2 && |last| == 1 {
      prior := front;
      assert init == [];
      assert Flatten(prior) == tiles;
      assert OpenedRow(rows[n - 2], last, maxCols);
      assert prior[|prior| - 1] == rows[n - 2];
      forall k | 1 <= k < |prior|
        ensures OpenedRow(prior[k - 1], prior[k], maxCols)
      {
        assert prior[k - 1] == rows[k - 1] && prior[k] == rows[k];
      }
    } else {
      prior := front + [init];
      FlattenAppend(front, init);
      assert RowWidth(last) <= maxCols by {
        if n >= 2 {
          assert OpenedRow(rows[n - 2], last, maxCols);
        }
      }
      assert prior[..|prior| - 1] == front;
      if n >= 2 {
        assert OpenedRow(rows[n - 2], last, maxCols);
        assert init[0] == last[0];
        assert OpenedRow(prior[n - 2], prior[n - 1], maxCols);
      }
      forall k | 1 <= k < |prior|
        ensures OpenedRow(prior[k - 1], prior[k], maxCols)
      {
        if k < n - 1 {
          assert prior[k - 1] == rows[k - 1] && prior[k] == rows[k];
        }
      }
    }
  }

  /** The only greedy packing of no blocks is a lone empty `row_0`. */
  lemma GreedyPackingOfNothing(rows: seq<seq<Child>>, maxCols: int)
    requires GreedyPacking(rows, [], maxCols)
    ensures rows == [[]]
  {
    FlattenEmpty(rows, 0);
    if |rows| >= 2 {
      assert OpenedRow(rows[0], rows[1], maxCols);
      FlattenEmpty(rows, 1);
      assert false;
    }
  }

  /**
   * The greedy packing is unique: the contract of `WrapRegion` determines its
   * rows completely.
   */
  lemma {:induction false} GreedyPackingUnique(rows1: seq<seq<Child>>, rows2: seq<seq<Child>>, tiles: seq<Child>, maxCols: int)
    requires GreedyPacking(rows1, tiles, maxCols)
    requires GreedyPacking(rows2, tiles, maxCols)
    ensures rows1 == rows2
    decreases |tiles|
  {
    if tiles == [] {
      GreedyPackingOfNothing(rows1, maxCols);
      GreedyPackingOfNothing(rows2, maxCols);
    } else {
      var front := tiles[..|tiles| - 1];
      var t := tiles[|tiles| - 1];
      assert tiles == front + [t];
      var prior1 := Unplace(rows1, front, t, maxCols);
      var prior2 := Unplace(rows2, front, t, maxCols);
      GreedyPackingUnique(prior1, prior2, front, maxCols);
    }
  }

  /**
   * With a non-negative budget every row fits, except a row that holds one
   * single block wider than the budget; such a block is always alone, and
   * never in `row_0`.
   */
  lemma OversizedBlockAlone(rows: seq<seq<Child>>, tiles: seq<Child>, maxCols: int)
    requires GreedyPacking(rows, tiles, maxCols)
    requires 0 <= maxCols
    ensures forall k :: 0 <= k < |rows| ==>
              RowWidth(rows[k]) <= maxCols || (|rows[k]| == 1 && Width(rows[k][0]) > maxCols)
    ensures forall k, j :: 0 <= k < |rows| && 0 <= j < |rows[k]| && Width(rows[k][j]) > maxCols ==>
              k >= 1 && rows[k] == [rows[k][j]]
  {
    forall k | 0 <= k < |rows|
      ensures RowWidth(rows[k]) <= maxCols || (|rows[k]| == 1 && Width(rows[k][0]) > maxCols)
    {
      if |rows[k]| == 1 {
        assert rows[k][1..] == [];
      }
      if k >= 1 {
        assert OpenedRow(rows[k - 1], rows[k], maxCols);
      }
    }
    forall k, j | 0 <= k < |rows| && 0 <= j < |rows[k]| && Width(rows[k][j]) > maxCols
      ensures k >= 1 && rows[k] == [rows[k][j]]
    {
      RowWidthBoundsElement(rows[k], j);
      if k >= 1 {
        assert OpenedRow(rows[k - 1], rows[k], maxCols);
      }
    }
  }

  /**
   * `row_0` is empty exactly when there is no block at all or the first
   * block alone is wider than the budget; that block then opens `row_1`.
   */
  lemma FirstRowEmpty(rows: seq<seq<Child>>, tiles: seq<Child>, maxCols: int)
    requires GreedyPacking(rows, tiles, maxCols)
    ensures rows[0] == [] <==> (tiles == [] || Width(tiles[0]) > maxCols)
    ensures rows[0] == [] && tiles != [] ==> |rows| >= 2 && rows[1][0] == tiles[0]
  {
    if rows[0] == [] {
      if tiles != [] {
        assert tiles == Flatten(rows[1..]);
        assert |rows| >= 2;
        assert OpenedRow(rows[0], rows[1], maxCols);
        assert Flatten(rows[1..]) == rows[1] + Flatten(rows[2..]);
      }
    } else {
      assert tiles[0] == rows[0][0];
      RowWidthBoundsElement(rows[0], 0);
    }
  }

  /** Blocks of widths 2, 2 and 3 under a budget of 4 pack as [[2, 2], [3]]. */
  lemma PackExample(rows: seq<seq<Child>>, a: Child, b: Child, c: Child)
    requires Width(a) == 2 && Width(b) == 2 && Width(c) == 3
    requires GreedyPacking(rows, [a, b, c], 4)
    ensures rows == [[a, b], [c]]
  {
    var expected := [[a, b], [c]];
    assert RowWidth([a, b]) == 4 by {
      assert [a, b][1..] == [b];
      assert [b][1..] == [];
      assert RowWidth([b]) == Width(b) + RowWidth([]);
    }
    assert Flatten(expected) == [a, b, c] by {
      assert expected[1..] == [[c]];
      assert [[c]][1..] == [];
      assert Flatten([[c]]) == [c] + Flatten([]);
      assert [a, b] + [c] == [a, b, c];
    }
    assert OpenedRow(expected[0], expected[1], 4);
    GreedyPackingUnique(rows, expected, [a, b, c], 4);
  }

  /**
   * A lone block of width 5 under a budget of 4 leaves `row_0` empty and sits
   * alone in `row_1`.
   */
  lemma OversizedFirstExample(rows: seq<seq<Child>>, a: Child)
    requires Width(a) == 5
    requires GreedyPacking(rows, [a], 4)
    ensures rows == [[], [a]]
  {
    var expected: seq<seq<Child>> := [[], [a]];
    assert Flatten(expected) == [a] by {
      assert expected[1..] == [[a]];
      assert [[a]][1..] == [];
      assert Flatten([[a]]) == [a] + Flatten([]);
    }
    assert OpenedRow(expected[0], expected[1], 4);
    GreedyPackingUnique(rows, expected, [a], 4);
  }

  /**
   * `wrapRegion`: packs the block children of a region into rows under
   * `maxCols` columns. Children without `#block` stay at the top level in
   * their order; every block is stashed under `#original` and removed from the
   * top level, and its row copy gets the `tiles_tile` theme wrapper.
   */
  method WrapRegion(children: seq<Child>, maxCols: int) returns (w: WrappedRegion)
    ensures w.rest == NonBlocks(children)
    ensures w.original == Blocks(children)
    ensures Flatten(w.rows) == AsTiles(w.original)
    ensures GreedyPacking(w.rows, AsTiles(Blocks(children)), maxCols)
  {
    var colCount := 0;
    var rows: seq<seq<Child>> := [[]];
    var original: seq<Child> := [];
    var rest: seq<Child> := [];
    var i := 0;
    while i < |children|
      invariant 0 <= i <= |children|
      invariant rest == NonBlocks(children[..i])
      invariant original == Blocks(children[..i])
      invariant |rows| >= 1
      invariant colCount == RowWidth(rows[|rows| - 1])
      invariant GreedyPacking(rows, AsTiles(original), maxCols)
    {
      var c := children[i];
      assert children[..i + 1] == children[..i] + [c];
      BlocksAppend(children[..i], c);
      NonBlocksAppend(children[..i], c);
      if !IsBlock(c) {
        rest := rest + [c];
      } else {
        var width := c.element.block.value.width;
        var tile := AsTile(c);
        PlacePreservesGreedy(rows, AsTiles(original), tile, maxCols);
        if colCount + width <= maxCols {
          RowWidthAppend(rows[|rows| - 1], tile);
          colCount := colCount + width;
          rows := rows[..|rows| - 1] + [rows[|rows| - 1] + [tile]];
        } else {
          colCount := width;
          rows := rows + [[tile]];
        }
        assert AsTiles(original + [c]) == AsTiles(original) + [tile];
        original := original + [c];
      }
      i := i + 1;
    }
    assert children[..i] == children;
    w := WrappedRegion(rest, original, rows);
  }
}
