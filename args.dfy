/**
 * The checks arbo makes on its command line before growing a tree, and the
 * resolution of a start column of 0 to a random column.
 */
module Args {
  import opened Growth

  /** The values as parsed: every one an integer, gen holding at least one. */
  datatype Args = Args(width: int, height: int, start: int, spread: int, gen: seq<int>)

  /** The usage errors, each carrying the values its message reports. */
  datatype ArgError =
    | GenCount(expected: int, got: int)
    | WidthTooSmall(width: int)
    | HeightTooSmall(height: int)
    | StartOutOfRange(width: int, start: int)

  datatype Result<T> = Ok(value: T) | Err(error: ArgError)

  predicate Acceptable(a: Args) {
    |a.gen| == 2 * a.spread && a.width >= 1 && a.height >= 1 && 0 <= a.start <= a.width
  }

  /** The checks, in the order they are made; the first that fails is reported.
      An empty gen list never gets here: the parser demands at least one value. */
  function Validate(a: Args): (r: Result<Args>)
    requires |a.gen| >= 1
    ensures r.Ok? <==> Acceptable(a)
    ensures r.Ok? ==> r.value == a && a.spread >= 1
    ensures |a.gen| != 2 * a.spread ==> r == Err(GenCount(2 * a.spread, |a.gen|))
    ensures |a.gen| == 2 * a.spread && a.width < 1 ==> r == Err(WidthTooSmall(a.width))
    ensures |a.gen| == 2 * a.spread && a.width >= 1 && a.height < 1 ==> r == Err(HeightTooSmall(a.height))
    ensures (|a.gen| == 2 * a.spread && a.width >= 1 && a.height >= 1 && !(0 <= a.start <= a.width))
              ==> r == Err(StartOutOfRange(a.width, a.start))
  {
    if |a.gen| != 2 * a.spread then Err(GenCount(2 * a.spread, |a.gen|))
    else if a.width < 1 then Err(WidthTooSmall(a.width))
    else if a.height < 1 then Err(HeightTooSmall(a.height))
    else if !(0 <= a.start <= a.width) then Err(StartOutOfRange(a.width, a.start))
    else Ok(a)
  }

  /** The generator's inputs from accepted arguments: a start of 0 takes the
      random column startDraw in [1, width]; gen splits into the first spread
      values (probabilities) and the rest (reduction factors). */
  function Resolve(a: Args, startDraw: int): (c: Config)
    requires |a.gen| >= 1 && Acceptable(a)
    requires a.start == 0 ==> 1 <= startDraw <= a.width
    ensures c.Valid()
    ensures (c.width, c.height, c.spread) == (a.width, a.height, a.spread)
    ensures c.start == if a.start == 0 then startDraw else a.start
    ensures c.gen + c.reduce == a.gen
  {
    var start := if a.start == 0 then startDraw else a.start;
    Config(a.width, a.height, start, a.spread, a.gen[..a.spread], a.gen[a.spread..])
  }

  /** From the command line "5 1 3 1 100 100": the arguments are accepted,
      the vectors split into [100] and [100], and the one-row grid with
      certain growth is just the trunk, "  |  ". */
  lemma OneRowExample(startDraw: int, draws: Draws)
    ensures Validate(Args(5, 1, 3, 1, [100, 100])).Ok?
    ensures Resolve(Args(5, 1, 3, 1, [100, 100]), startDraw) == Config(5, 1, 3, 1, [100], [100])
    ensures Tree(Resolve(Args(5, 1, 3, 1, [100, 100]), startDraw), draws) == [[Blank, Blank, Trunk, Blank, Blank]]
  {
    var c := Resolve(Args(5, 1, 3, 1, [100, 100]), startDraw);
    assert [100, 100][..1] == [100] && [100, 100][1..] == [100];
    assert Planted(c)[0] == [Blank, Blank, Trunk, Blank, Blank];
  }
}
