/**
 * The grid-growth algorithm of arbo as pure functions: the cell glyphs, one
 * activation step, the offset and column passes of a row, the per-row decay
 * of the probability vector, and the whole grid after a number of rows.
 * The imperative program in module Arbo is proved against these functions.
 */
module Growth {

  // ---------------------------------------------------------------------------
  // Cells
  // ---------------------------------------------------------------------------

  const Blank: char := ' '
  const Trunk: char := '|'
  const LeftLean: char := '\\'
  const RightLean: char := '/'
  const Connector: char := '_'
  const Collision: char := 'o'

  /** The six characters a cell can ever hold. */
  const CellChars: set<char> := {Blank, Trunk, LeftLean, RightLean, Connector, Collision}

  /** A cell that propagates into the next row: anything but empty or a collision. */
  predicate IsGrowth(c: char) {
    c != Blank && c != Collision
  }

  /** The glyph an empty target gets when offset s activates it. */
  function Glyph(s: int, spread: int): (c: char)
    requires spread >= 1
    ensures c in {Trunk, LeftLean, RightLean, Connector}
    ensures IsGrowth(c)
  {
    if s - spread / 2 == 0 then Trunk
    else if s == 0 then LeftLean
    else if s == spread - 1 then RightLean
    else Connector
  }

  /** Every growth glyph that some offset of a spread can produce. */
  ghost function GrowthGlyphs(spread: int): set<char>
    requires spread >= 1
  {
    set s | 0 <= s < spread :: Glyph(s, spread)
  }

  /** The characters a cell may hold for a given spread. */
  ghost function Allowed(spread: int): set<char>
    requires spread >= 1
  {
    {Blank, Collision} + GrowthGlyphs(spread)
  }

  /** The glyphs of a spread are drawn from the four growth glyphs, the
      straight continuation is always among them, and a spread of one yields
      nothing but straight growth. */
  lemma GrowthGlyphsFacts(spread: int)
    requires spread >= 1
    ensures Trunk in GrowthGlyphs(spread)
    ensures GrowthGlyphs(spread) <= {Trunk, LeftLean, RightLean, Connector}
    ensures Allowed(spread) <= CellChars
    ensures spread == 1 ==> Allowed(spread) == {Blank, Trunk, Collision}
  {
    assert Glyph(spread / 2, spread) == Trunk;
    if spread == 1 {
      assert GrowthGlyphs(1) == {Trunk} by {
        forall c | c in GrowthGlyphs(1) ensures c == Trunk {
          var s :| 0 <= s < 1 && c == Glyph(s, 1);
          assert s == 0;
        }
      }
    }
  }

  /** What an activated target becomes: the collision marker when it is
      already occupied, otherwise the glyph of the offset. */
  function Mark(c: char, s: int, spread: int): char
    requires spread >= 1
  {
    if c != Blank then Collision else Glyph(s, spread)
  }

  // ---------------------------------------------------------------------------
  // One row pass
  // ---------------------------------------------------------------------------

  /** The random source: the i-th draw in [1,100] that the program takes. */
  type Draws = nat -> int

  ghost predicate DrawsInRange(draws: Draws, hi: int) {
    forall i: nat :: 1 <= draws(i) <= hi
  }

  /** The row being written, and how many draws have been taken so far. */
  datatype RowState = RowState(row: seq<char>, used: nat)

  /** The column that offset s of column x aims at; the floor division keeps
      the range left of centre for an even spread. */
  function Target(x: int, s: int, spread: int): int {
    x + s - spread / 2
  }

  predicate RowArgs(prev: seq<char>, gen: seq<int>, spread: int, st: RowState) {
    spread >= 1 && |gen| == spread && |st.row| == |prev|
  }

  /** Offset s of source column x: a draw is taken only for an in-bounds
      target, and the target is marked when the draw is at most gen[s]. */
  function Offer(prev: seq<char>, gen: seq<int>, spread: int, draws: Draws, st: RowState, x: int, s: int): (r: RowState)
    requires RowArgs(prev, gen, spread, st) && 0 <= s < spread
    ensures |r.row| == |st.row|
  {
    var t := Target(x, s, spread);
    if 0 <= t < |st.row| then
      if draws(st.used) <= gen[s] then RowState(st.row[t := Mark(st.row[t], s, spread)], st.used + 1)
      else RowState(st.row, st.used + 1)
    else st
  }

  /** Offsets 0 .. m-1 of source column x, in order. */
  function Offsets(prev: seq<char>, gen: seq<int>, spread: int, draws: Draws, st: RowState, x: int, m: nat): (r: RowState)
    requires RowArgs(prev, gen, spread, st) && m <= spread
    ensures |r.row| == |st.row|
    decreases m
  {
    if m == 0 then st
    else Offer(prev, gen, spread, draws, Offsets(prev, gen, spread, draws, st, x, m - 1), x, m - 1)
  }

  /** Source columns 0 .. n-1 of the row below; only growth cells propagate. */
  function Columns(prev: seq<char>, gen: seq<int>, spread: int, draws: Draws, st: RowState, n: nat): (r: RowState)
    requires RowArgs(prev, gen, spread, st) && n <= |prev|
    ensures |r.row| == |st.row|
    decreases n
  {
    if n == 0 then st
    else
      var before := Columns(prev, gen, spread, draws, st, n - 1);
      if IsGrowth(prev[n - 1]) then Offsets(prev, gen, spread, draws, before, n - 1, spread)
      else before
  }

  // ---------------------------------------------------------------------------
  // Closed forms for the draws and the cells of a pass
  // ---------------------------------------------------------------------------

  /** How many of the offsets 0 .. m-1 of column x aim inside [0, width). */
  function InBounds(x: int, spread: int, width: int, m: nat): nat {
    if m == 0 then 0
    else InBounds(x, spread, width, m - 1) + (if 0 <= Target(x, m - 1, spread) < width then 1 else 0)
  }

  /** How many draws the source columns 0 .. n-1 take in one pass. */
  function DrawsBefore(prev: seq<char>, spread: nat, n: nat): nat
    requires n <= |prev|
  {
    if n == 0 then 0
    else DrawsBefore(prev, spread, n - 1) + (if IsGrowth(prev[n - 1]) then InBounds(n - 1, spread, |prev|, spread) else 0)
  }

  /** The position in the draw stream of the draw taken by offset s of
      column x, for a pass that starts at position k0. */
  function DrawIndex(prev: seq<char>, spread: nat, k0: nat, x: nat, s: nat): nat
    requires x <= |prev|
  {
    k0 + DrawsBefore(prev, spread, x) + InBounds(x, spread, |prev|, s)
  }

  /** Offset s of column x activates its target in a pass starting at draw k0. */
  predicate Activates(prev: seq<char>, gen: seq<int>, spread: int, draws: Draws, k0: nat, x: int, s: int) {
    && 0 <= x < |prev|
    && 0 <= s < spread
    && s < |gen|
    && IsGrowth(prev[x])
    && 0 <= Target(x, s, spread) < |prev|
    && draws(DrawIndex(prev, spread, k0, x, s)) <= gen[s]
  }

  /** Column x activates target column j (through the one offset that aims at j). */
  predicate HitsFrom(prev: seq<char>, gen: seq<int>, spread: int, draws: Draws, k0: nat, x: int, j: int) {
    Activates(prev, gen, spread, draws, k0, x, j - x + spread / 2)
  }

  /** With draws in [1,100], a probability of 100 or more always activates an
      in-bounds target of a growth cell, and one of 0 or less never does. */
  lemma ActivationExtremes(prev: seq<char>, gen: seq<int>, spread: int, draws: Draws, k0: nat, x: int, s: int)
    requires DrawsInRange(draws, 100) && |gen| == spread
    requires 0 <= x < |prev| && 0 <= s < spread && IsGrowth(prev[x]) && 0 <= Target(x, s, spread) < |prev|
    ensures gen[s] >= 100 ==> Activates(prev, gen, spread, draws, k0, x, s)
    ensures gen[s] <= 0 ==> !Activates(prev, gen, spread, draws, k0, x, s)
  {
  }

  /** The source columns among 0 .. n-1 whose activation lands on column j,
      in the order the pass visits them. */
  function Sources(prev: seq<char>, gen: seq<int>, spread: int, draws: Draws, k0: nat, j: int, n: nat): (r: seq<int>)
    requires n <= |prev|
    ensures forall x :: x in r <==> 0 <= x < n && HitsFrom(prev, gen, spread, draws, k0, x, j)
    ensures forall a, b :: 0 <= a < b < |r| ==> r[a] < r[b]
    decreases n
  {
    if n == 0 then []
    else
      var before := Sources(prev, gen, spread, draws, k0, j, n - 1);
      assert forall a :: 0 <= a < |before| ==> before[a] in before;
      before + (if HitsFrom(prev, gen, spread, draws, k0, n - 1, j) then [n - 1] else [])
  }

  /** Reference definition of a cell after a pass, from its value before the
      pass and the source columns that landed on it: untouched without any,
      a fresh glyph after exactly one on an empty cell, a collision otherwise. */
  function Settle(c: char, sources: seq<int>, j: int, spread: int): char
    requires spread >= 1
  {
    if sources == [] then c
    else if |sources| == 1 && c == Blank then Glyph(j - sources[0] + spread / 2, spread)
    else Collision
  }

  lemma {:induction false} OffsetsUsed(prev: seq<char>, gen: seq<int>, spread: int, draws: Draws, st: RowState, x: int, m: nat)
    requires RowArgs(prev, gen, spread, st) && m <= spread
    ensures Offsets(prev, gen, spread, draws, st, x, m).used == st.used + InBounds(x, spread, |prev|, m)
    decreases m
  {
    if m > 0 {
      OffsetsUsed(prev, gen, spread, draws, st, x, m - 1);
    }
  }

  /** A pass takes exactly one draw per in-bounds target of a growth cell. */
  lemma {:induction false} ColumnsUsed(prev: seq<char>, gen: seq<int>, spread: int, draws: Draws, st: RowState, n: nat)
    requires RowArgs(prev, gen, spread, st) && n <= |prev|
    ensures Columns(prev, gen, spread, draws, st, n).used == st.used + DrawsBefore(prev, spread, n)
    decreases n
  {
    if n > 0 {
      ColumnsUsed(prev, gen, spread, draws, st, n - 1);
      if IsGrowth(prev[n - 1]) {
        OffsetsUsed(prev, gen, spread, draws, Columns(prev, gen, spread, draws, st, n - 1), n - 1, spread);
      }
    }
  }

  /** Within the offsets of one growth column, cell j changes only through
      the one offset aiming at it, and only when that offset activates. */
  lemma {:induction false} OffsetsCell(prev: seq<char>, gen: seq<int>, spread: int, draws: Draws, k0: nat,
                                       st: RowState, x: int, m: nat, j: int)
    requires RowArgs(prev, gen, spread, st) && m <= spread
    requires 0 <= x < |prev| && 0 <= j < |prev| && IsGrowth(prev[x])
    requires st.used == k0 + DrawsBefore(prev, spread, x)
    ensures Offsets(prev, gen, spread, draws, st, x, m).row[j] ==
            if j - x + spread / 2 < m && HitsFrom(prev, gen, spread, draws, k0, x, j)
            then Mark(st.row[j], j - x + spread / 2, spread)
            else st.row[j]
    decreases m
  {
    if m > 0 {
      OffsetsCell(prev, gen, spread, draws, k0, st, x, m - 1, j);
      OffsetsUsed(prev, gen, spread, draws, st, x, m - 1);
    }
  }

  /** One more landing on a cell is one more Mark of its settled value. */
  lemma SettleStep(c: char, sources: seq<int>, x: int, j: int, spread: int)
    requires spread >= 1
    ensures Mark(Settle(c, sources, j, spread), j - x + spread / 2, spread) == Settle(c, sources + [x], j, spread)
  {
  }

  /** The pass computed step by step agrees, cell by cell, with the reference
      definition Settle over the sources of the cell. */
  lemma {:induction false} RowCell(prev: seq<char>, gen: seq<int>, spread: int, draws: Draws, cur: seq<char>, k0: nat, n: nat, j: int)
    requires RowArgs(prev, gen, spread, RowState(cur, k0)) && n <= |prev| && 0 <= j < |prev|
    ensures Columns(prev, gen, spread, draws, RowState(cur, k0), n).row[j]
            == Settle(cur[j], Sources(prev, gen, spread, draws, k0, j, n), j, spread)
    decreases n
  {
    if n > 0 {
      var st := RowState(cur, k0);
      var x := n - 1;
      var before := Columns(prev, gen, spread, draws, st, x);
      var srcs := Sources(prev, gen, spread, draws, k0, j, x);
      var hit := HitsFrom(prev, gen, spread, draws, k0, x, j);
      RowCell(prev, gen, spread, draws, cur, k0, x, j);
      assert before.row[j] == Settle(cur[j], srcs, j, spread);
      assert Sources(prev, gen, spread, draws, k0, j, n) == srcs + (if hit then [x] else []);
      var after := Columns(prev, gen, spread, draws, st, n).row[j];
      if IsGrowth(prev[x]) {
        ColumnsUsed(prev, gen, spread, draws, st, x);
        OffsetsCell(prev, gen, spread, draws, k0, before, x, spread, j);
        assert after == if hit then Mark(before.row[j], j - x + spread / 2, spread) else before.row[j];
      } else {
        assert !hit;
        assert after == before.row[j];
      }
      if hit {
        SettleStep(cur[j], srcs, x, j, spread);
      } else {
        assert srcs + [] == srcs;
      }
    }
  }

  /** Within a pass an occupied cell is never emptied, and it either keeps its
      value or becomes the collision marker. */
  lemma {:induction false} ColumnsMonotone(prev: seq<char>, gen: seq<int>, spread: int, draws: Draws, st: RowState, n: nat, m: nat, j: int)
    requires RowArgs(prev, gen, spread, st) && n <= m <= |prev| && 0 <= j < |prev|
    requires Columns(prev, gen, spread, draws, st, n).row[j] != Blank
    ensures Columns(prev, gen, spread, draws, st, m).row[j] in {Columns(prev, gen, spread, draws, st, n).row[j], Collision}
    decreases m
  {
    if m > n {
      ColumnsMonotone(prev, gen, spread, draws, st, n, m - 1, j);
      var before := Columns(prev, gen, spread, draws, st, m - 1);
      if IsGrowth(prev[m - 1]) {
        ColumnsUsed(prev, gen, spread, draws, st, m - 1);
        OffsetsCell(prev, gen, spread, draws, st.used, before, m - 1, spread, j);
      }
    }
  }

  /** Passes keep every cell inside the allowed characters of the spread. */
  lemma RowAllowed(prev: seq<char>, gen: seq<int>, spread: int, draws: Draws, cur: seq<char>, k0: nat)
    requires RowArgs(prev, gen, spread, RowState(cur, k0))
    requires forall j :: 0 <= j < |cur| ==> cur[j] in Allowed(spread)
    ensures forall j :: 0 <= j < |cur| ==>
              Columns(prev, gen, spread, draws, RowState(cur, k0), |prev|).row[j] in Allowed(spread)
  {
    forall j | 0 <= j < |cur|
      ensures Columns(prev, gen, spread, draws, RowState(cur, k0), |prev|).row[j] in Allowed(spread)
    {
      RowCell(prev, gen, spread, draws, cur, k0, |prev|, j);
      var srcs := Sources(prev, gen, spread, draws, k0, j, |prev|);
      if |srcs| == 1 && cur[j] == Blank {
        assert srcs[0] in srcs;
        var s := j - srcs[0] + spread / 2;
        assert 0 <= s < spread;
        assert Glyph(s, spread) in GrowthGlyphs(spread);
      }
    }
  }

  // ---------------------------------------------------------------------------
  // Probability decay
  // ---------------------------------------------------------------------------

  /** Python's int(a / d) for d > 0: division truncating toward zero. */
  function TruncDiv(a: int, d: int): (q: int)
    requires d > 0
    ensures a >= 0 ==> q * d <= a < q * d + d
    ensures a < 0 ==> q * d - d < a <= q * d
  {
    if a >= 0 then a / d
    else
      var p := (-a) / d;
      assert p * d <= -a < p * d + d;
      assert (-p) * d == -(p * d);
      -p
  }

  function Min(a: int, b: int): int {
    if a <= b then a else b
  }

  /** One row of decay: gen[s] * reduce[s] / 100, truncated, over the zip of
      the two vectors. */
  function Decay(gen: seq<int>, reduce: seq<int>): (r: seq<int>)
    ensures |r| == Min(|gen|, |reduce|)
  {
    seq(Min(|gen|, |reduce|), s requires 0 <= s < Min(|gen|, |reduce|) => TruncDiv(gen[s] * reduce[s], 100))
  }

  /** k rows of decay. */
  function DecayN(gen: seq<int>, reduce: seq<int>, k: nat): seq<int>
    decreases k
  {
    if k == 0 then gen else Decay(DecayN(gen, reduce, k - 1), reduce)
  }

  /** k-fold truncating decay of one probability by one reduction factor. */
  function Iterate(g: int, r: int, k: nat): int
    decreases k
  {
    if k == 0 then g else TruncDiv(Iterate(g, r, k - 1) * r, 100)
  }

  /** After k rows the vector keeps its length and each entry is the k-fold
      decay of its own initial value: entries do not interact. */
  lemma {:induction false} DecayNAt(gen: seq<int>, reduce: seq<int>, k: nat)
    requires |gen| == |reduce|
    ensures |DecayN(gen, reduce, k)| == |gen|
    ensures forall s :: 0 <= s < |gen| ==> DecayN(gen, reduce, k)[s] == Iterate(gen[s], reduce[s], k)
    decreases k
  {
    if k > 0 {
      DecayNAt(gen, reduce, k - 1);
    }
  }

  /** With a reduction factor in [0,100] a probability never grows in size
      and never changes sign. */
  lemma {:induction false} IterateBounded(g: int, r: int, k: nat)
    requires 0 <= r <= 100
    ensures g >= 0 ==> 0 <= Iterate(g, r, k) <= g
    ensures g <= 0 ==> g <= Iterate(g, r, k) <= 0
    decreases k
  {
    if k > 0 {
      IterateBounded(g, r, k - 1);
      DecayStepBounded(Iterate(g, r, k - 1), r);
    }
  }

  /** One truncating decay step by a factor in [0,100] moves toward zero. */
  lemma DecayStepBounded(p: int, r: int)
    requires 0 <= r <= 100
    ensures p >= 0 ==> 0 <= TruncDiv(p * r, 100) <= p
    ensures p <= 0 ==> p <= TruncDiv(p * r, 100) <= 0
  {
    MulBetween(p, r);
    var q := TruncDiv(p * r, 100);
    if p < 0 && p * r < 0 {
      assert q * 100 - 100 < p * r <= q * 100;
    }
  }

  /** p * r lies between 0 and p * 100 for r in [0,100]. */
  lemma {:induction false} MulBetween(p: int, r: int)
    requires 0 <= r <= 100
    ensures p >= 0 ==> 0 <= p * r <= p * 100
    ensures p <= 0 ==> p * 100 <= p * r <= 0
    decreases r
  {
    if r > 0 {
      MulBetween(p, r - 1);
      assert p * r == p * (r - 1) + p;
    }
  }

  /** A factor of 100 keeps a probability as it is, forever. */
  lemma {:induction false} IterateFull(g: int, k: nat)
    ensures Iterate(g, 100, k) == g
    decreases k
  {
    if k > 0 {
      IterateFull(g, k - 1);
    }
  }

  // ---------------------------------------------------------------------------
  // The whole grid
  // ---------------------------------------------------------------------------

  /** The inputs of the generator once validated and resolved: grid size, the
      1-based start column, the spread and the two vectors of length spread. */
  datatype Config = Config(width: int, height: int, start: int, spread: int, gen: seq<int>, reduce: seq<int>)
  {
    predicate Valid() {
      && width >= 1
      && height >= 1
      && 1 <= start <= width
      && spread >= 1
      && |gen| == spread
      && |reduce| == spread
    }
  }

  function BlankRow(width: nat): seq<char> {
    seq(width, _ => Blank)
  }

  /** A height x width grid of empty cells with the trunk at (0, start-1). */
  function Planted(c: Config): (g: seq<seq<char>>)
    requires c.Valid()
    ensures |g| == c.height
    ensures forall i :: 0 <= i < c.height ==> |g[i]| == c.width
    ensures g[0][c.start - 1] == Trunk
    ensures forall i, j :: 0 <= i < c.height && 0 <= j < c.width && (i, j) != (0, c.start - 1) ==> g[i][j] == Blank
  {
    seq(c.height, _ => BlankRow(c.width))[0 := BlankRow(c.width)[c.start - 1 := Trunk]]
  }

  /** The grid, the probability vector and the draw position once rows
      1 .. n-1 have been grown. */
  datatype Growth = Growth(grid: seq<seq<char>>, gen: seq<int>, used: nat)

  function GrowRows(c: Config, draws: Draws, n: nat): (g: Growth)
    requires c.Valid() && 1 <= n <= c.height
    ensures |g.grid| == c.height
    ensures forall i :: 0 <= i < c.height ==> |g.grid[i]| == c.width
    ensures |g.gen| == c.spread
    decreases n
  {
    if n == 1 then Growth(Planted(c), c.gen, 0)
    else
      var g := GrowRows(c, draws, n - 1);
      var y := n - 1;
      var pass := Columns(g.grid[y - 1], g.gen, c.spread, draws, RowState(g.grid[y], g.used), c.width);
      Growth(g.grid[y := pass.row], Decay(g.gen, c.reduce), pass.used)
  }

  /** The finished grid. */
  function Tree(c: Config, draws: Draws): seq<seq<char>>
    requires c.Valid()
  {
    GrowRows(c, draws, c.height).grid
  }

  /** The probability vector before the pass of row n is the (n-1)-fold decay
      of the initial one, whatever the grid and the draws. */
  lemma {:induction false} GenAfterRows(c: Config, draws: Draws, n: nat)
    requires c.Valid() && 1 <= n <= c.height
    ensures GrowRows(c, draws, n).gen == DecayN(c.gen, c.reduce, n - 1)
    decreases n
  {
    if n > 1 {
      GenAfterRows(c, draws, n - 1);
    }
  }

  /** Rows not yet grown are still empty. */
  lemma {:induction false} RowsPending(c: Config, draws: Draws, m: nat)
    requires c.Valid() && 1 <= m <= c.height
    ensures forall i :: m <= i < c.height ==> GrowRows(c, draws, m).grid[i] == BlankRow(c.width)
    decreases m
  {
    if m > 1 {
      RowsPending(c, draws, m - 1);
    }
  }

  /** A row, once grown, is never written again: the pass of row y changes
      row y only. */
  lemma {:induction false} RowsSettle(c: Config, draws: Draws, n: nat, m: nat)
    requires c.Valid() && 1 <= n <= m <= c.height
    ensures forall i :: 0 <= i < n ==> GrowRows(c, draws, m).grid[i] == GrowRows(c, draws, n).grid[i]
    decreases m
  {
    if m > n {
      RowsSettle(c, draws, n, m - 1);
    }
  }

  /** Every cell of the grid, at every stage, holds an allowed character. */
  lemma {:induction false} GridAllowed(c: Config, draws: Draws, n: nat)
    requires c.Valid() && 1 <= n <= c.height
    ensures forall i, j :: 0 <= i < c.height && 0 <= j < c.width ==> GrowRows(c, draws, n).grid[i][j] in Allowed(c.spread)
    decreases n
  {
    GrowthGlyphsFacts(c.spread);
    if n > 1 {
      GridAllowed(c, draws, n - 1);
      var g := GrowRows(c, draws, n - 1);
      var y := n - 1;
      RowAllowed(g.grid[y - 1], g.gen, c.spread, draws, g.grid[y], g.used);
    }
  }

  /** Draws taken before the pass of row y: the in-bounds targets of the
      growth cells of rows 0 .. y-2 of the finished grid. */
  ghost function DrawsThrough(c: Config, draws: Draws, y: nat): nat
    requires c.Valid() && 1 <= y <= c.height
    decreases y
  {
    if y == 1 then 0
    else DrawsThrough(c, draws, y - 1) + DrawsBefore(Tree(c, draws)[y - 2], c.spread, c.width)
  }

  /** Source column x of the finished row y-1 activates cell j of row y. */
  ghost predicate GrowsInto(c: Config, draws: Draws, y: nat, x: int, j: int)
    requires c.Valid() && 1 <= y < c.height
  {
    HitsFrom(Tree(c, draws)[y - 1], DecayN(c.gen, c.reduce, y - 1), c.spread, draws, DrawsThrough(c, draws, y), x, j)
  }

  /** The source columns that land on cell (y, j), left to right. */
  ghost function CellSources(c: Config, draws: Draws, y: nat, j: int): seq<int>
    requires c.Valid() && 1 <= y < c.height
  {
    Sources(Tree(c, draws)[y - 1], DecayN(c.gen, c.reduce, y - 1), c.spread, draws, DrawsThrough(c, draws, y), j, c.width)
  }

  /** The state before the pass of row y, in terms of the finished grid. */
  lemma {:induction false} BeforePass(c: Config, draws: Draws, y: nat)
    requires c.Valid() && 1 <= y < c.height
    ensures GrowRows(c, draws, y).grid[y - 1] == Tree(c, draws)[y - 1]
    ensures GrowRows(c, draws, y).grid[y] == BlankRow(c.width)
    ensures GrowRows(c, draws, y).gen == DecayN(c.gen, c.reduce, y - 1)
    ensures GrowRows(c, draws, y).used == DrawsThrough(c, draws, y)
    decreases y
  {
    RowsSettle(c, draws, y, c.height);
    RowsPending(c, draws, y);
    GenAfterRows(c, draws, y);
    if y > 1 {
      BeforePass(c, draws, y - 1);
      var g := GrowRows(c, draws, y - 1);
      ColumnsUsed(g.grid[y - 2], g.gen, c.spread, draws, RowState(g.grid[y - 1], g.used), c.width);
    }
  }

  /** Cell (y, j) of the finished grid, for y >= 1, is the settled value of an
      empty cell over the source columns that activated it. */
  lemma TreeCell(c: Config, draws: Draws, y: nat, j: int)
    requires c.Valid() && 1 <= y < c.height && 0 <= j < c.width
    ensures Tree(c, draws)[y][j] == Settle(Blank, CellSources(c, draws, y, j), j, c.spread)
  {
    BeforePass(c, draws, y);
    RowsSettle(c, draws, y + 1, c.height);
    var g := GrowRows(c, draws, y);
    var pass := Columns(g.grid[y - 1], g.gen, c.spread, draws, RowState(g.grid[y], g.used), c.width);
    assert GrowRows(c, draws, y + 1).grid[y] == pass.row;
    assert Tree(c, draws)[y] == pass.row;
    RowCell(g.grid[y - 1], g.gen, c.spread, draws, g.grid[y], g.used, c.width, j);
    assert g.grid[y][j] == Blank;
    assert Sources(g.grid[y - 1], g.gen, c.spread, draws, g.used, j, c.width) == CellSources(c, draws, y, j);
  }

  /** What a cell of a grown row says about its causes:
      it is occupied exactly when some source column activated it, it is a
      collision exactly when two different source columns did, and otherwise
      an occupied cell carries the glyph of the one offset that reached it. */
  lemma CellCause(c: Config, draws: Draws, y: nat, j: int)
    requires c.Valid() && 1 <= y < c.height && 0 <= j < c.width
    ensures Tree(c, draws)[y][j] != Blank <==> exists x :: 0 <= x < c.width && GrowsInto(c, draws, y, x, j)
    ensures Tree(c, draws)[y][j] == Collision <==>
            exists x1, x2 :: 0 <= x1 < x2 < c.width && GrowsInto(c, draws, y, x1, j) && GrowsInto(c, draws, y, x2, j)
    ensures forall x :: 0 <= x < c.width && GrowsInto(c, draws, y, x, j) && IsGrowth(Tree(c, draws)[y][j])
              ==> Tree(c, draws)[y][j] == Glyph(j - x + c.spread / 2, c.spread)
  {
    TreeCell(c, draws, y, j);
    var srcs := CellSources(c, draws, y, j);
    if srcs != [] {
      assert srcs[0] in srcs;
      assert GrowsInto(c, draws, y, srcs[0], j);
    }
    if |srcs| >= 2 {
      assert srcs[0] in srcs && srcs[1] in srcs;
      assert GrowsInto(c, draws, y, srcs[0], j) && GrowsInto(c, draws, y, srcs[1], j);
    }
    forall x1, x2 | 0 <= x1 < x2 < c.width && GrowsInto(c, draws, y, x1, j) && GrowsInto(c, draws, y, x2, j)
      ensures |srcs| >= 2
    {
      assert x1 in srcs && x2 in srcs;
    }
    forall x | 0 <= x < c.width && GrowsInto(c, draws, y, x, j) && IsGrowth(Tree(c, draws)[y][j])
      ensures Tree(c, draws)[y][j] == Glyph(j - x + c.spread / 2, c.spread)
    {
      assert x in srcs;
    }
  }

  /** Every cell of the finished grid holds one of the six characters, and a
      spread of one grows only straight. */
  lemma TreeGlyphs(c: Config, draws: Draws)
    requires c.Valid()
    ensures forall i, j :: 0 <= i < c.height && 0 <= j < c.width ==> Tree(c, draws)[i][j] in CellChars
    ensures c.spread == 1 ==>
              forall i, j :: 0 <= i < c.height && 0 <= j < c.width ==> Tree(c, draws)[i][j] in {Blank, Trunk, Collision}
  {
    GridAllowed(c, draws, c.height);
    GrowthGlyphsFacts(c.spread);
  }

  /** Row 0 is the planted row, with the trunk at column start-1. */
  lemma TreeBase(c: Config, draws: Draws)
    requires c.Valid()
    ensures Tree(c, draws)[0] == Planted(c)[0]
    ensures Tree(c, draws)[0][c.start - 1] == Trunk
  {
    RowsSettle(c, draws, 1, c.height);
  }

  /** The smallest grid is the one trunk cell. */
  lemma SingleCellExample(spread: int, gen: seq<int>, reduce: seq<int>, draws: Draws)
    requires spread >= 1 && |gen| == spread && |reduce| == spread
    ensures Tree(Config(1, 1, 1, spread, gen, reduce), draws) == [[Trunk]]
  {
    var c := Config(1, 1, 1, spread, gen, reduce);
    assert Planted(c)[0] == [Trunk];
  }
}
