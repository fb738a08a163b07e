/**
 * The generator as the program runs it: a height x width character grid
 * mutated in place by nested loops over rows, source columns and offsets,
 * with the probability vector rebound after every row. Each method is proved
 * against the functions of module Growth.
 */
module Arbo {
  import opened Growth
  import opened Args

  /** The offsets of growth column x of row y-1 into row y. Each in-bounds
      target takes the next draw; an activated target becomes the collision
      marker when occupied, otherwise the glyph of its offset. */
  method SpreadFrom(tree: array2<char>, y: nat, x: nat, spread: int, gen: seq<int>, draws: Draws, k: nat,
                    ghost prev: seq<char>, ghost row: seq<char>)
    returns (used: nat)
    requires 1 <= y < tree.Length0 && x < tree.Length1
    requires RowArgs(prev, gen, spread, RowState(row, k)) && |prev| == tree.Length1
    requires forall j :: 0 <= j < tree.Length1 ==> tree[y, j] == row[j]
    modifies tree
    ensures used == Offsets(prev, gen, spread, draws, RowState(row, k), x, spread).used
    ensures forall j :: 0 <= j < tree.Length1 ==> tree[y, j] == Offsets(prev, gen, spread, draws, RowState(row, k), x, spread).row[j]
    ensures forall i, j :: 0 <= i < tree.Length0 && i != y && 0 <= j < tree.Length1 ==> tree[i, j] == old(tree[i, j])
  {
    used := k;
    var s := 0;
    while s < spread
      invariant 0 <= s <= spread
      invariant used == Offsets(prev, gen, spread, draws, RowState(row, k), x, s).used
      invariant forall j :: 0 <= j < tree.Length1 ==> tree[y, j] == Offsets(prev, gen, spread, draws, RowState(row, k), x, s).row[j]
      invariant forall i, j :: 0 <= i < tree.Length0 && i != y && 0 <= j < tree.Length1 ==> tree[i, j] == old(tree[i, j])
    {
      var target := s + x - spread / 2;
      if 0 <= target < tree.Length1 {
        var draw := draws(used);
        used := used + 1;
        if draw <= gen[s] {
          if tree[y, target] != Blank {
            tree[y, target] := Collision;
          } else {
            tree[y, target] := Glyph(s, spread);
          }
        }
      }
      s := s + 1;
    }
  }

  /** The pass of row y: every growth cell of row y-1, left to right, spreads
      into row y; no other row is written. */
  method GrowRow(tree: array2<char>, y: nat, spread: int, gen: seq<int>, draws: Draws, k: nat,
                 ghost prev: seq<char>, ghost row: seq<char>)
    returns (used: nat)
    requires 1 <= y < tree.Length0
    requires RowArgs(prev, gen, spread, RowState(row, k)) && |prev| == tree.Length1
    requires forall j :: 0 <= j < tree.Length1 ==> tree[y - 1, j] == prev[j] && tree[y, j] == row[j]
    modifies tree
    ensures used == Columns(prev, gen, spread, draws, RowState(row, k), tree.Length1).used
    ensures forall j :: 0 <= j < tree.Length1 ==> tree[y, j] == Columns(prev, gen, spread, draws, RowState(row, k), tree.Length1).row[j]
    ensures forall i, j :: 0 <= i < tree.Length0 && i != y && 0 <= j < tree.Length1 ==> tree[i, j] == old(tree[i, j])
  {
    used := k;
    var x := 0;
    while x < tree.Length1
      invariant 0 <= x <= tree.Length1
      invariant used == Columns(prev, gen, spread, draws, RowState(row, k), x).used
      invariant forall j :: 0 <= j < tree.Length1 ==> tree[y, j] == Columns(prev, gen, spread, draws, RowState(row, k), x).row[j]
      invariant forall i, j :: 0 <= i < tree.Length0 && i != y && 0 <= j < tree.Length1 ==> tree[i, j] == old(tree[i, j])
    {
      if tree[y - 1, x] != Blank && tree[y - 1, x] != Collision {
        ghost var before := Columns(prev, gen, spread, draws, RowState(row, k), x);
        used := SpreadFrom(tree, y, x, spread, gen, draws, used, prev, before.row);
      }
      x := x + 1;
    }
  }

  /** The whole generator: plant the trunk, grow rows 1 .. height-1 and decay
      the probabilities after each row. The grid that results is Tree(c, draws). */
  method Generate(c: Config, draws: Draws) returns (tree: array2<char>)
    requires c.Valid()
    requires DrawsInRange(draws, 100)
    ensures fresh(tree)
    ensures tree.Length0 == c.height && tree.Length1 == c.width
    ensures forall i, j :: 0 <= i < c.height && 0 <= j < c.width ==> tree[i, j] == Tree(c, draws)[i][j]
  {
    tree := new char[c.height, c.width]((_, _) => Blank);
    tree[0, c.start - 1] := Trunk;
    var gen := c.gen;
    var used: nat := 0;
    var y := 1;
    while y < c.height
      invariant 1 <= y <= c.height
      invariant gen == GrowRows(c, draws, y).gen && used == GrowRows(c, draws, y).used
      invariant forall i, j :: 0 <= i < c.height && 0 <= j < c.width ==> tree[i, j] == GrowRows(c, draws, y).grid[i][j]
    {
      ghost var g := GrowRows(c, draws, y);
      ghost var pass := Columns(g.grid[y - 1], g.gen, c.spread, draws, RowState(g.grid[y], g.used), c.width);
      ghost var next := GrowRows(c, draws, y + 1);
      assert next.grid == g.grid[y := pass.row];
      assert next.gen == Decay(g.gen, c.reduce) && next.used == pass.used;
      used := GrowRow(tree, y, c.spread, gen, draws, used, g.grid[y - 1], g.grid[y]);
      forall i, j | 0 <= i < c.height && 0 <= j < c.width
        ensures tree[i, j] == next.grid[i][j]
      {
        if i != y {
          assert next.grid[i] == g.grid[i];
        } else {
          assert next.grid[i] == pass.row;
        }
      }
      gen := Decay(gen, c.reduce);
      y := y + 1;
    }
  }

  /** The program end to end, short of printing: validate the arguments,
      resolve the start column, grow the tree. */
  method Run(a: Args, startDraw: int, draws: Draws) returns (r: Result<array2<char>>)
    requires |a.gen| >= 1
    requires a.start == 0 && a.width >= 1 ==> 1 <= startDraw <= a.width
    requires DrawsInRange(draws, 100)
    ensures r.Err? <==> Validate(a).Err?
    ensures r.Err? ==> r.error == Validate(a).error
    ensures r.Ok? ==> fresh(r.value)
    ensures r.Ok? ==> Acceptable(a) && var c := Resolve(a, startDraw);
              && r.value.Length0 == c.height && r.value.Length1 == c.width
              && forall i, j :: 0 <= i < c.height && 0 <= j < c.width ==> r.value[i, j] == Tree(c, draws)[i][j]
  {
    var checked := Validate(a);
    if checked.Err? {
      return Err(checked.error);
    }
    var c := Resolve(a, startDraw);
    var tree := Generate(c, draws);
    r := Ok(tree);
  }
}
