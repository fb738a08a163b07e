# arbo in Dafny

A model of `arbo`, a small program that draws a random ASCII-art tree in a
`height × width` character grid. A trunk `|` is planted on row 0 at column
`start-1`. Each later row grows from the row below it. Every growth cell
(anything but `' '` or the collision marker `o`) of row `y-1` offers its `spread`
offsets `x + s - spread/2` to row `y`. An in-bounds offset activates when a
draw in `[1,100]` is at most `gen[s]`. An activated empty cell gets the glyph of
its offset (`|` for the centre offset, then `\` for offset 0, `/` for the last
offset, `_` otherwise). An activated occupied cell becomes `o`. After every
row each probability `gen[s]` is replaced by `int(gen[s] * reduce[s] / 100)`.

The project has three modules:

- `Growth` (growth.dfy) holds the algorithm as pure functions. `Offer` is one
  offset, `Offsets` is all offsets of a column, `Columns` is a whole pass over a
  row, `Decay` is the per-row decay, and `GrowRows`/`Tree` give the grid after a
  number of rows. It also holds the lemmas about these functions. There are two
  independent reference definitions. `DrawIndex` gives, in closed form, the
  position of every draw in the random stream. `Settle` gives the final value of
  a cell from its value before the pass and the list of `Sources`, the source
  columns whose activation landed on it.
- `Args` (args.dfy) holds the argument checks of `parse_arguments` and the
  resolution of `start == 0` to a random column.
- `Arbo` (arbo.dfy) holds the program as it runs. The grid is an `array2<char>`
  changed in place by the nested `y` / `x` / `s` loops: `Generate`, `GrowRow` and
  `SpreadFrom`. The probability vector is rebound after each row. Each method is
  proved against the functions of `Growth`. `Run` chains validation, start
  resolution and generation.

Randomness is an explicit input. `draws: nat -> int` is the stream of
`randint(1, 100)` results, and a counter tracks how much of it has been used.
A draw is taken only for an in-bounds target, because the source's `and`
short-circuits. The random start column is a separate argument `startDraw` in
`[1, width]`. With these inputs the grid is a function of the arguments.

The decay `int(g * r / 100)` truncates toward zero. This differs from floor
division when the product is negative and not a multiple of 100. The model
uses truncation toward zero (`TruncDiv`).

## Model

| member | source | states |
|---|---|---|
| Args.Validate | arbo.py:16-30 | Arguments are accepted exactly when `len(gen) == 2*spread`, `width >= 1`, `height >= 1` and `0 <= start <= width`. Otherwise the error is the first failing check, in source order, with the values its message reports. Acceptance implies `spread >= 1`, given that the parser demands at least one `gen` value. |
| Args.Resolve | arbo.py:44-49 | From accepted arguments and a start draw in `[1,width]`, the result is a valid configuration, so `start` lies in `[1,width]` and `tree[0][start-1]` is in bounds. A start of 0 becomes the draw; any other start is kept. The two vectors are the halves `gen[:spread]` and `gen[spread:]`. |
| Growth.Glyph | arbo.py:65-70 | The glyph for a fresh cell is always one of `|`, `\`, `/`, `_`, so it is a growth glyph and never `' '` or `o`. |
| Growth.GrowthGlyphsFacts | arbo.py:65-70 | The glyphs a spread can produce are among the four growth glyphs and always include `|`. With `spread == 1` the only glyph is `|`. |
| Growth.Planted | arbo.py:52-53 | The initial grid has `height` rows of `width` cells. `(0, start-1)` holds `|` and every other cell is `' '`. |
| Growth.Offer | arbo.py:60-70 | One offset step keeps the row's length. What the step does to the cells and to the draw counter is stated by OffsetsUsed and OffsetsCell. |
| Growth.Offsets | arbo.py:59-70 | The offset loop of one column keeps the row's length. Its draws and cells are stated by OffsetsUsed and OffsetsCell. |
| Growth.Columns | arbo.py:57-70 | The column loop of a pass keeps the row's length. Its draws and cells are stated by ColumnsUsed and RowCell. |
| Growth.OffsetsUsed | arbo.py:59-61 | The offsets of a column take exactly one draw per in-bounds target. |
| Growth.ColumnsUsed | arbo.py:57-61 | A pass takes exactly one draw per in-bounds target of a growth cell of the row below. No other draws are taken. |
| Growth.ActivationExtremes | arbo.py:61 | With draws in `[1,100]`, an in-bounds target of a growth cell always activates when `gen[s] >= 100`. It never activates when `gen[s] <= 0`. |
| Growth.Sources | arbo.py:57-61 | The source columns listed for cell `j` are exactly those `x` whose cell below is a growth glyph, whose offset `j - x + spread/2` is in range, and whose draw (at its closed-form position) is at most `gen` of that offset. They are listed in strictly increasing order. |
| Growth.OffsetsCell | arbo.py:59-70 | Within the offsets of one growth column, cell `j` changes only through the one offset that aims at it, and only when that offset activates. It then becomes `Mark` of its old value. |
| Growth.SettleStep | arbo.py:62-70 | One more activation landing on a cell gives the reference value for the list with one more source. |
| Growth.RowCell | arbo.py:57-70 | After a pass, each cell of the row equals the reference `Settle(old value, its sources)`. That is: unchanged with no source; the glyph of the one offset if one source landed on an empty cell; `o` otherwise. |
| Growth.ColumnsMonotone | arbo.py:62-63 | Within a pass an occupied cell is never emptied again. A later write leaves it as it was or turns it into `o`, never into another growth glyph. |
| Growth.RowAllowed | arbo.py:58-70 | A pass keeps every cell of the row among `' '`, `o` and the glyphs of the spread. |
| Growth.TruncDiv | arbo.py:72 | `int(a / d)` for `d > 0`: the quotient truncated toward zero, characterised by its bounds for non-negative and negative `a`. |
| Growth.Decay | arbo.py:72 | The decayed vector has the length of the zip of `gen` and `reduce` (the shorter of the two). |
| Growth.DecayNAt | arbo.py:56-72 | After `k` rows the vector still has length `spread`. Each entry `s` is the `k`-fold truncating decay of the initial `gen[s]` by `reduce[s]`. Entries do not interact. |
| Growth.DecayStepBounded | arbo.py:72 | With a reduction factor in `[0,100]`, one decay step moves a probability toward zero without crossing it. |
| Growth.IterateBounded | arbo.py:56-72 | With a reduction factor in `[0,100]`, a probability never grows in size and never changes sign, over any number of rows. |
| Growth.IterateFull | arbo.py:72 | A reduction factor of 100 keeps a probability unchanged forever. |
| Growth.GrowRows | arbo.py:52-72 | The grid keeps `height` rows of `width` cells through every pass. The probability vector keeps length `spread`. |
| Growth.GenAfterRows | arbo.py:56-72 | Before the pass of row `n`, the probability vector is the `(n-1)`-fold decay of the initial one. This holds whatever the grid contents and the draws. |
| Growth.RowsPending | arbo.py:52-70 | Rows not yet grown are still all `' '`. |
| Growth.RowsSettle | arbo.py:56-70 | A row, once grown, is never written again: rows below `y` are unchanged by the pass of row `y` and every later pass, and row 0 keeps its trunk. Rows above `y` staying empty is RowsPending. |
| Growth.GridAllowed | arbo.py:52-70 | At every stage every cell holds `' '`, `o` or a glyph of the spread. |
| Growth.BeforePass | arbo.py:56-72 | At the start of the pass of row `y` four facts hold. Row `y-1` is already final. Row `y` is empty. The vector is the `(y-1)`-fold decay. The draw position is the number of in-bounds targets of the growth cells of rows `0..y-2`. |
| Growth.TreeCell | arbo.py:56-70 | Each cell `(y, j)` of the finished grid, for `y >= 1`, is `Settle` of an empty cell over the source columns of the finished row `y-1` that activated it. |
| Growth.CellCause | arbo.py:58-63 | Three facts about a cell of a grown row. It is non-empty exactly when some source column activated it. It is `o` exactly when two different source columns did. Otherwise a non-empty cell holds the glyph of the offset that reached it. |
| Growth.TreeGlyphs | arbo.py:52-70 | Every cell of the finished grid is one of `' '`, `|`, `\`, `/`, `_` and `o`. With `spread == 1` every cell is one of `' '`, `|` and `o`. |
| Growth.TreeBase | arbo.py:52-53 | Row 0 of the finished grid is the planted row, with `|` at column `start-1`. |
| Args.OneRowExample | arbo.py:44-72 | The command line `5 1 3 1 100 100` is accepted, splits into gen `[100]` and reduce `[100]`, and gives the single row `"  |  "`. |
| Growth.SingleCellExample | arbo.py:52-53 | A 1×1 grid is the single trunk cell, whatever the spread and vectors. |
| Arbo.SpreadFrom | arbo.py:59-70 | The offset loop, run in place on the array, leaves row `y` and the draw counter as `Offsets` gives them. Every other row is unchanged. |
| Arbo.GrowRow | arbo.py:57-70 | The column loop, run in place on the array, leaves row `y` and the draw counter as `Columns` gives them. Every other row, including the source row `y-1`, is unchanged. |
| Arbo.Generate | arbo.py:51-72 | The array is new, and it has `height` rows and `width` columns. Every cell equals the cell of `Tree(c, draws)`, so all the facts proved about the model hold of it. |
| Arbo.Run | arbo.py:36-72 | Invalid arguments give exactly the error `Validate` reports. Valid ones give a new array holding the grid of `Tree` over the resolved configuration. A start draw is needed only when `start` is 0. |

## Left out

- Printing the bordered grid (arbo.py:74-79) is output only. It prints the rows from `height-1` down to row 0, so the trunk ends up at the bottom. It is not modelled.
- Building the argument parser, converting strings to integers and exiting through `parser.error` (arbo.py:5-19) are library behaviour. The model keeps only the checks and returns the error as a value. The parser's own rejection of an empty `gen` list (`nargs="+"`) becomes the precondition `|gen| >= 1`.
- The `random` module is not modelled. The grid draws are the parameter `draws`, and the start draw is the parameter `startDraw`. In the source both come from one generator, and the start draw is taken first. The model gives them separately, so it does not capture that sharing.
- `g * r / 100` is a float division in the source. The model uses exact integer truncation toward zero. It does not model the rounding of very large products, nor the `OverflowError` the source raises when the quotient is beyond the float range (arbo.py:72); the model has no such error path.
- Growth.Decay: its contract states only the length. The entries are given by its definition, and the facts about them are DecayNAt, IterateBounded and IterateFull.
