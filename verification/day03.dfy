/** Day 3: a toboggan crossing a map of open squares and trees. The map
    repeats to the right, so a ray through it wraps around horizontally and
    stops once it falls off the bottom. */
module Day03 {
  import opened Wrappers
  import opened Text
  import opened Numbers

  datatype Cell = Empty | Tree

  /** '.' is an open square and '#' a tree; every other character fails the
      parser's assertion. */
  function CellOf(c: char): Option<Cell> {
    match c
    case '.' => Some(Empty)
    case '#' => Some(Tree)
    case _ => None
  }

  function CellChar(cell: Cell): char {
    match cell
    case Empty => '.'
    case Tree => '#'
  }

  /** Exactly the two map characters parse, and they print back unchanged. */
  lemma CellRoundTrip(c: char, cell: Cell)
    ensures CellOf(CellChar(cell)) == Some(cell)
    ensures CellOf(c).Some? <==> c == '.' || c == '#'
    ensures CellOf(c).Some? ==> CellChar(CellOf(c).value) == c
  {
  }

  /** A line made only of map characters. */
  predicate IsRow(line: string) {
    forall k :: 0 <= k < |line| ==> CellOf(line[k]).Some?
  }

  function Row(line: string): (r: seq<Cell>)
    requires IsRow(line)
    ensures |r| == |line|
  {
    seq(|line|, k requires 0 <= k < |line| => CellOf(line[k]).value)
  }

  predicate AllRows(lines: seq<string>) {
    forall k :: 0 <= k < |lines| ==> IsRow(lines[k])
  }

  /** The width assertion: each line is as long as the one before it, unless
      that one was empty. */
  predicate ConsistentWidths(lines: seq<string>) {
    forall k :: 1 <= k < |lines| ==> |lines[k - 1]| == 0 || |lines[k]| == |lines[k - 1]|
  }

  /** The lines the parser accepts without failing an assertion. */
  predicate WellFormed(lines: seq<string>) {
    AllRows(lines) && ConsistentWidths(lines)
  }

  /** The cells of all lines, row after row. */
  function Rows(lines: seq<string>): seq<Cell>
    requires AllRows(lines)
  {
    if |lines| == 0 then [] else Rows(lines[..|lines| - 1]) + Row(lines[|lines| - 1])
  }

  /** The width the parser ends with: the length of the last line. */
  function LastWidth(lines: seq<string>): nat {
    if |lines| == 0 then 0 else |lines[|lines| - 1]|
  }

  datatype Grid = Grid(cells: seq<Cell>, width: nat, height: nat)

  /** The grid the parser builds from well-formed lines. */
  function GridOf(lines: seq<string>): Grid
    requires AllRows(lines)
  {
    Grid(Rows(lines), LastWidth(lines), |lines|)
  }

  /** `Grid::from_string`: one row per line of the text. None where the
      source fails an assertion: a character other than '.' and '#', or a
      line whose length differs from a non-empty line before it. */
  method FromString(text: string) returns (r: Option<Grid>)
    ensures r.Some? <==> WellFormed(Lines(text))
    ensures r.Some? ==> r.value == GridOf(Lines(text))
  {
    r := FromLines(Lines(text));
  }

  /** The loop of `Grid::from_string` over the lines of the text. */
  method FromLines(lines: seq<string>) returns (r: Option<Grid>)
    ensures r.Some? <==> WellFormed(lines)
    ensures r.Some? ==> r.value == GridOf(lines)
  {
    var cells: seq<Cell> := [];
    var width: nat := 0;
    var height: nat := 0;
    var i := 0;
    while i < |lines|
      invariant 0 <= i <= |lines|
      invariant height == i
      invariant WellFormed(lines[..i])
      invariant cells == Rows(lines[..i])
      invariant width == LastWidth(lines[..i])
    {
      var line := lines[i];
      height := height + 1;
      var lineLength: nat := 0;
      var j := 0;
      while j < |line|
        invariant 0 <= j <= |line|
        invariant lineLength == j
        invariant IsRow(line[..j])
        invariant cells == Rows(lines[..i]) + Row(line[..j])
      {
        lineLength := lineLength + 1;
        var cell := CellOf(line[j]);
        if cell.None? {
          BadCharacter(lines, i, j);
          return None;
        }
        RowStep(line, j);
        cells := cells + [cell.value];
        j := j + 1;
      }
      assert line[..j] == line;
      if !(width == 0 || width == lineLength) {
        BadWidth(lines, i);
        return None;
      }
      LineStep(lines, i);
      width := lineLength;
      i := i + 1;
    }
    assert lines[..i] == lines;
    r := Some(Grid(cells, width, height));
  }

  lemma RowStep(line: string, j: nat)
    requires j < |line| && IsRow(line[..j]) && CellOf(line[j]).Some?
    ensures IsRow(line[..j + 1])
    ensures Row(line[..j + 1]) == Row(line[..j]) + [CellOf(line[j]).value]
  {
    assert line[..j + 1] == line[..j] + [line[j]];
  }

  lemma BadCharacter(lines: seq<string>, i: nat, j: nat)
    requires i < |lines| && j < |lines[i]| && CellOf(lines[i][j]).None?
    ensures !WellFormed(lines)
  {
  }

  lemma BadWidth(lines: seq<string>, i: nat)
    requires i < |lines|
    requires !(LastWidth(lines[..i]) == 0 || LastWidth(lines[..i]) == |lines[i]|)
    ensures !WellFormed(lines)
  {
    assert |lines[i - 1]| != 0 && |lines[i]| != |lines[i - 1]|;
  }

  lemma LineStep(lines: seq<string>, i: nat)
    requires i < |lines| && WellFormed(lines[..i]) && IsRow(lines[i])
    requires LastWidth(lines[..i]) == 0 || LastWidth(lines[..i]) == |lines[i]|
    ensures WellFormed(lines[..i + 1])
    ensures Rows(lines[..i + 1]) == Rows(lines[..i]) + Row(lines[i])
    ensures LastWidth(lines[..i + 1]) == |lines[i]|
  {
    assert lines[..i + 1][..i] == lines[..i];
  }

  /** Cutting the lines anywhere cuts the cells in the same place. */
  lemma {:induction false} RowsCut(lines: seq<string>, i: nat)
    requires AllRows(lines) && i <= |lines|
    ensures Rows(lines) == Rows(lines[..i]) + Rows(lines[i..])
  {
    if i < |lines| {
      var init := lines[..|lines| - 1];
      RowsCut(init, i);
      assert init[..i] == lines[..i];
      assert lines[i..][..|lines[i..]| - 1] == init[i..];
    } else {
      assert lines[..i] == lines;
    }
  }

  lemma {:induction false} RowsLength(lines: seq<string>, w: nat)
    requires AllRows(lines)
    requires forall k :: 0 <= k < |lines| ==> |lines[k]| <= w
    ensures |Rows(lines)| <= w * |lines|
    ensures (forall k :: 0 <= k < |lines| ==> |lines[k]| == w) ==> |Rows(lines)| == w * |lines|
  {
    if |lines| > 0 {
      RowsLength(lines[..|lines| - 1], w);
    }
  }

  /** In a well-formed text the empty lines come first; every later line is
      as long as the one before it. */
  lemma {:induction false} UniformWidth(lines: seq<string>, k: nat)
    requires WellFormed(lines)
    requires k < |lines| && lines[k] != ""
    ensures forall j :: k <= j < |lines| ==> |lines[j]| == |lines[k]|
    ensures forall j :: 0 <= j < |lines| ==> |lines[j]| == 0 || |lines[j]| == LastWidth(lines)
  {
    forall j | k <= j < |lines| ensures |lines[j]| == |lines[k]| {
      StepWidth(lines, k, j);
    }
    forall j | 0 <= j < |lines| ensures |lines[j]| == 0 || |lines[j]| == LastWidth(lines) {
      if lines[j] != "" {
        StepWidth(lines, j, |lines| - 1);
      }
    }
  }

  lemma {:induction false} StepWidth(lines: seq<string>, k: nat, j: nat)
    requires ConsistentWidths(lines)
    requires k <= j < |lines| && lines[k] != ""
    ensures |lines[j]| == |lines[k]|
    decreases j - k
  {
    if k < j {
      StepWidth(lines, k, j - 1);
    }
  }

  /** A map in the shape the puzzle promises: well-formed, with a non-empty
      first line, hence every line as wide as the grid. */
  predicate Rectangular(lines: seq<string>) {
    WellFormed(lines) && |lines| > 0 && lines[0] != ""
  }

  /** The index `x + width * y` the source reads for position (x, y). */
  function Offset(g: Grid, p: (nat, nat)): nat {
    p.0 + g.width * p.1
  }

  /** Indexing the grid. The source's vector index panics past the end. */
  function Index(g: Grid, p: (nat, nat)): Cell
    requires Offset(g, p) < |g.cells|
  {
    g.cells[Offset(g, p)]
  }

  /** A rectangular map is stored row by row: position (x, y) holds the
      character at column x of line y. */
  lemma IndexRowMajor(lines: seq<string>, x: nat, y: nat)
    requires Rectangular(lines)
    requires x < |lines[0]| && y < |lines|
    ensures |lines[y]| == |lines[0]|
    ensures GridOf(lines).width == |lines[0]|
    ensures |GridOf(lines).cells| == |lines[0]| * |lines|
    ensures Offset(GridOf(lines), (x, y)) < |GridOf(lines).cells|
    ensures Index(GridOf(lines), (x, y)) == CellOf(lines[y][x]).value
  {
    var w := |lines[0]|;
    UniformWidth(lines, 0);
    RowsLength(lines, w);
    var pre := lines[..y];
    assert forall k :: 0 <= k < |pre| ==> |pre[k]| == w;
    RowsLength(pre, w);
    RowsSplit(lines, y);
    var row := Row(lines[y]);
    assert |row| == w;
    CellAt(Rows(pre), row, Rows(lines[y + 1..]), x);
  }

  lemma CellAt(a: seq<Cell>, row: seq<Cell>, b: seq<Cell>, x: nat)
    requires x < |row|
    ensures (a + row + b)[|a| + x] == row[x]
  {
  }

  /** The cells of line `y` sit between those of the lines above and below it. */
  lemma RowsSplit(lines: seq<string>, y: nat)
    requires AllRows(lines) && y < |lines|
    ensures Rows(lines) == Rows(lines[..y]) + Row(lines[y]) + Rows(lines[y + 1..])
  {
    var upto := lines[..y + 1];
    var pre := lines[..y];
    assert AllRows(upto) && AllRows(pre) && AllRows(lines[y + 1..]);
    RowsCut(lines, y + 1);
    assert upto[..|upto| - 1] == pre;
    assert Rows(upto) == Rows(pre) + Row(lines[y]);
  }

  /** Where the ray is after `k` moves: x wraps around the width and y only
      grows. The start itself is not reduced modulo the width. */
  function Position(start: (nat, nat), dir: (nat, nat), width: nat, k: nat): (nat, nat)
    requires k == 0 || width > 0
  {
    if k == 0 then start else ((start.0 + k * dir.0) % width, start.1 + k * dir.1)
  }

  /** One move adds the direction and wraps x. */
  lemma PositionStep(start: (nat, nat), dir: (nat, nat), width: nat, k: nat)
    requires width > 0
    ensures Position(start, dir, width, k + 1).0 == (Position(start, dir, width, k).0 + dir.0) % width
    ensures Position(start, dir, width, k + 1).1 == Position(start, dir, width, k).1 + dir.1
  {
    if k > 0 {
      ModAdd(start.0 + k * dir.0, dir.0, width);
      assert (k + 1) * dir.0 == k * dir.0 + dir.0;
      assert (k + 1) * dir.1 == k * dir.1 + dir.1;
    }
  }

  /** Position p lies in a row of the grid and its index is inside the
      cells, or it lies below the last row. Reading the cell panics otherwise. */
  predicate Readable(g: Grid, p: (nat, nat)) {
    p.1 < g.height ==> Offset(g, p) < |g.cells|
  }

  /** What the `k`-th call of `next` yields: None below the last row, the
      cell there otherwise. The last branch is the read past the cells that
      `Ray.Next` excludes by its precondition. */
  function Visit(g: Grid, start: (nat, nat), dir: (nat, nat), k: nat): Option<Cell>
    requires g.width > 0
  {
    var p := Position(start, dir, g.width, k);
    if p.1 >= g.height then None
    else if Offset(g, p) < |g.cells| then Some(Index(g, p))
    else None
  }

  /** The last move that still lands inside the rows (0 when none does). */
  function LastStep(g: Grid, start: (nat, nat), dir: (nat, nat)): nat
    requires dir.1 >= 1
  {
    if start.1 >= g.height then 0 else (g.height - 1 - start.1) / dir.1
  }

  /** With a downward direction, the moves that stay inside the rows are
      exactly the first `LastStep` ones. */
  lemma InRows(g: Grid, start: (nat, nat), dir: (nat, nat), k: nat)
    requires dir.1 >= 1 && k >= 1
    ensures start.1 + k * dir.1 < g.height <==> k <= LastStep(g, start, dir)
  {
    var d := dir.1;
    var y := k * d;
    if start.1 < g.height {
      var m := g.height - 1 - start.1;
      var q := m / d;
      DivMod(m, d);
      assert LastStep(g, start, dir) == q;
      if k <= q {
        MulMonotone(k, q, d);
        assert y <= q * d <= m;
      } else {
        MulMonotone(q + 1, k, d);
        Distribute(q, 1, d);
        assert y >= q * d + d > m;
      }
    } else {
      assert y >= 0;
    }
  }

  /** The number of trees yielded by the moves after move `lo` up to move `hi`. */
  function Trees(g: Grid, start: (nat, nat), dir: (nat, nat), lo: nat, hi: nat): (n: nat)
    requires g.width > 0
    ensures n <= (if hi <= lo then 0 else hi - lo)
    decreases hi
  {
    if hi <= lo then 0
    else Trees(g, start, dir, lo, hi - 1) + (if Visit(g, start, dir, hi) == Some(Tree) then 1 else 0)
  }

  /** `Ray`: the iterator that `Grid::cast_ray` returns. It owns the grid and
      moves its cursor on every call of `next`. */
  class Ray {
    const grid: Grid
    const direction: (nat, nat)
    var current: (nat, nat)
    ghost const start: (nat, nat)
    ghost var steps: nat

    /** The cursor is where `steps` moves from the start lead. */
    ghost predicate Valid()
      reads this
    {
      (steps == 0 || grid.width > 0) && current == Position(start, direction, grid.width, steps)
    }

    /** `Grid::cast_ray`. */
    constructor (grid: Grid, start: (nat, nat), direction: (nat, nat))
      ensures Valid()
      ensures this.grid == grid && this.start == start && this.direction == direction
      ensures current == start && steps == 0
    {
      this.grid := grid;
      this.direction := direction;
      this.current := start;
      this.start := start;
      this.steps := 0;
    }

    /** The position the next call moves to. */
    function NextPosition(): (nat, nat)
      reads this
      requires grid.width > 0
    {
      ((current.0 + direction.0) % grid.width, current.1 + direction.1)
    }

    /** `Ray::next`: move, then yield the cell there, or None below the last
      row. The source divides by the width (a zero width panics) and indexes
      the cells (a read past them panics); both are excluded here. */
    method Next() returns (r: Option<Cell>)
      requires Valid() && grid.width > 0
      requires Readable(grid, NextPosition())
      modifies this
      ensures Valid()
      ensures steps == old(steps) + 1
      ensures current == old(NextPosition())
      ensures r == Visit(grid, start, direction, steps)
      ensures r.None? <==> current.1 >= grid.height
    {
      PositionStep(start, direction, grid.width, steps);
      current := ((current.0 + direction.0) % grid.width, current.1 + direction.1);
      steps := steps + 1;
      if current.1 >= grid.height {
        r := None;
      } else {
        r := Some(grid.cells[current.0 + grid.width * current.1]);
      }
    }
  }

  /** `ray.filter(|c| *c == Cell::Tree).count()`: drains the ray and counts
      the trees it yields, which are those of the moves after the current one
      up to the last move inside the rows. */
  method CountTrees(ray: Ray) returns (n: nat)
    requires ray.Valid() && ray.grid.width > 0 && ray.direction.1 >= 1
    requires forall k: nat :: ray.steps < k ==>
      Readable(ray.grid, Position(ray.start, ray.direction, ray.grid.width, k))
    modifies ray
    ensures n == Trees(ray.grid, ray.start, ray.direction, old(ray.steps), LastStep(ray.grid, ray.start, ray.direction))
  {
    ghost var first := ray.steps;
    ghost var g, start, dir := ray.grid, ray.start, ray.direction;
    ghost var last := LastStep(g, start, dir);
    PositionStep(start, dir, g.width, ray.steps);
    n := 0;
    var cell := ray.Next();
    InRows(g, start, dir, ray.steps);
    while cell.Some?
      invariant ray.Valid() && ray.grid == g && ray.start == start && ray.direction == dir
      invariant first < ray.steps
      invariant cell == Visit(g, start, dir, ray.steps)
      invariant cell.Some? <==> ray.steps <= last
      invariant ray.steps - 1 <= last || ray.steps - 1 == first
      invariant n == Trees(g, start, dir, first, ray.steps - 1)
      decreases last + 1 - ray.steps
    {
      ghost var k := ray.steps;
      assert Trees(g, start, dir, first, k) == n + (if cell == Some(Tree) then 1 else 0);
      if cell.value == Tree {
        n := n + 1;
      }
      PositionStep(start, dir, g.width, k);
      cell := ray.Next();
      InRows(g, start, dir, k + 1);
    }
  }

  /** A rectangular map has a non-zero width and exactly width times height
      cells; a well-formed map of that shape is rectangular. */
  lemma RectangularGrid(lines: seq<string>)
    ensures Rectangular(lines) ==>
      GridOf(lines).width > 0 && |GridOf(lines).cells| == GridOf(lines).width * GridOf(lines).height
    ensures WellFormed(lines) && GridOf(lines).width > 0 && |GridOf(lines).cells| == GridOf(lines).width * GridOf(lines).height
      ==> Rectangular(lines)
  {
    if Rectangular(lines) {
      IndexRowMajor(lines, 0, 0);
      UniformWidth(lines, 0);
    }
    if WellFormed(lines) && GridOf(lines).width > 0 && lines[0] == "" {
      LeadingBlankLinePanics(lines);
    }
  }

  /** In a rectangular map every move of a ray from a position inside the
      map reads inside the cells. */
  lemma RectangularReadable(lines: seq<string>, start: (nat, nat), dir: (nat, nat), k: nat)
    requires Rectangular(lines)
    requires k >= 1
    ensures GridOf(lines).width > 0
    ensures Readable(GridOf(lines), Position(start, dir, GridOf(lines).width, k))
  {
    var g := GridOf(lines);
    UniformWidth(lines, 0);
    var p := Position(start, dir, g.width, k);
    if p.1 < g.height {
      IndexRowMajor(lines, p.0, p.1);
    }
  }

  /** A well-formed map with an empty first line but a non-zero width is
      missing the cells of that line, so the first ray of the puzzle, (1, 1)
      from (0, 0), reads past the cells at its last move inside the rows:
      the source panics there. */
  lemma LeadingBlankLinePanics(lines: seq<string>)
    requires WellFormed(lines) && |lines| > 0 && lines[0] == ""
    requires GridOf(lines).width > 0
    ensures GridOf(lines).height >= 2
    ensures 1 <= GridOf(lines).height - 1 == LastStep(GridOf(lines), (0, 0), (1, 1))
    ensures !Readable(GridOf(lines), Position((0, 0), (1, 1), GridOf(lines).width, GridOf(lines).height - 1))
  {
    var g := GridOf(lines);
    var w, h := g.width, g.height;
    UniformWidth(lines, |lines| - 1);
    var rest := lines[1..];
    RowsCut(lines, 1);
    assert Rows(lines[..1]) == [] by {
      assert lines[..1][..0] == [];
    }
    RowsLength(rest, w);
    assert w * (h - 1) <= Offset(g, Position((0, 0), (1, 1), w, h - 1));
  }

  /** The five slopes the puzzle asks about, as (right, down). */
  const DIRECTIONS: seq<(nat, nat)> := [(1, 1), (3, 1), (5, 1), (7, 1), (1, 2)]

  /** Every slope moves down. */
  predicate Downward(dirs: seq<(nat, nat)>) {
    forall k :: 0 <= k < |dirs| ==> dirs[k].1 >= 1
  }

  /** The trees met on the way down slope `d` from the top-left corner. */
  function TreesOnSlope(g: Grid, d: (nat, nat)): nat
    requires g.width > 0 && d.1 >= 1
  {
    Trees(g, (0, 0), d, 0, LastStep(g, (0, 0), d))
  }

  /** The product of the tree counts of the given slopes. */
  function Product(g: Grid, dirs: seq<(nat, nat)>): nat
    requires g.width > 0 && Downward(dirs)
  {
    if |dirs| == 0 then 1
    else Product(g, dirs[..|dirs| - 1]) * TreesOnSlope(g, dirs[|dirs| - 1])
  }

  lemma ProductStep(g: Grid, dirs: seq<(nat, nat)>, i: nat)
    requires g.width > 0 && i < |dirs| && Downward(dirs)
    ensures Downward(dirs[..i]) && Downward(dirs[..i + 1])
    ensures Product(g, dirs[..i + 1]) == Product(g, dirs[..i]) * TreesOnSlope(g, dirs[i])
  {
    assert dirs[..i + 1][..i] == dirs[..i];
  }

  /** The trees on one slope from the top-left corner, as one round of the
      puzzle's loop counts them: parse the map, cast a ray, count its trees.
      It is defined exactly on rectangular maps: on any other text the
      source panics while parsing, dividing by a zero width, or (for the
      slope (1, 1)) reading past the cells. */
  method SlopeTrees(input: string, d: (nat, nat)) returns (r: Option<nat>)
    requires d.1 >= 1
    ensures Rectangular(Lines(input)) ==> r.Some?
    ensures r.Some? ==> Rectangular(Lines(input)) && GridOf(Lines(input)).width > 0
    ensures d == (1, 1) ==> (r.Some? <==> Rectangular(Lines(input)))
    ensures r.Some? ==> r.value == TreesOnSlope(GridOf(Lines(input)), d)
  {
    var grid := FromString(input);
    if grid.None? {
      return None;
    }
    var g := grid.value;
    ghost var lines := Lines(input);
    RectangularGrid(lines);
    if g.width == 0 {
      // `next` divides by the zero width on its first call.
      return None;
    }
    if |g.cells| != g.width * g.height {
      // The slope (1, 1) reads past the cells: see LeadingBlankLinePanics.
      return None;
    }
    var ray := new Ray(g, (0, 0), d);
    forall k: nat | 0 < k ensures Readable(g, Position((0, 0), d, g.width, k)) {
      RectangularReadable(lines, (0, 0), d, k);
    }
    var n := CountTrees(ray);
    r := Some(n);
  }

  /** The puzzle's answer: the product of the tree counts of the five
      slopes; None exactly when the map is not rectangular, where the first
      slope already panics. */
  method TreesProduct(input: string) returns (r: Option<nat>)
    ensures r.Some? <==> Rectangular(Lines(input))
    ensures r.Some? ==> GridOf(Lines(input)).width > 0
    ensures r.Some? ==> r.value == Product(GridOf(Lines(input)), DIRECTIONS)
  {
    ghost var lines := Lines(input);
    var product: nat := 1;
    var i := 0;
    assert |DIRECTIONS| == 5 && DIRECTIONS[0] == (1, 1);
    assert Downward(DIRECTIONS);
    while i < |DIRECTIONS|
      invariant 0 <= i <= |DIRECTIONS|
      invariant i > 0 ==> Rectangular(lines) && GridOf(lines).width > 0
      invariant i == 0 ==> product == 1
      invariant i > 0 ==> Downward(DIRECTIONS[..i]) && product == Product(GridOf(lines), DIRECTIONS[..i])
    {
      var n := SlopeTrees(input, DIRECTIONS[i]);
      if n.None? {
        assert i == 0 && DIRECTIONS[i] == (1, 1);
        return None;
      }
      ProductStep(GridOf(lines), DIRECTIONS, i);
      product := product * n.value;
      i := i + 1;
    }
    assert DIRECTIONS[..i] == DIRECTIONS;
    r := Some(product);
  }
}

/** The worked examples of day 3. */
module Day03Examples {
  import opened Wrappers
  import opened Text
  import opened Day03

  const SMALL := ".#..\n#.#.\n..#.\n"
  const SMALL_LINES: seq<string> := [".#..", "#.#.", "..#."]
  const SMALL_CELLS: seq<Cell> := [Empty, Tree, Empty, Empty, Tree, Empty, Tree, Empty, Empty, Empty, Tree, Empty]

  /** The small map has three lines; the final newline ends the last one. */
  lemma SmallLines()
    ensures Lines(SMALL) == SMALL_LINES
  {
    var ls := SMALL_LINES;
    SmallJoin();
    forall k | 0 <= k < |ls| ensures PlainLine(ls[k]) {
    }
    LinesJoin(ls, true);
  }

  lemma SmallJoin()
    ensures Join(SMALL_LINES + [""], "\n") == SMALL
  {
    assert SMALL_LINES + [""] == [".#..", "#.#.", "..#.", ""];
    assert Join(["..#.", ""], "\n") == "..#.\n";
    assert Join(["#.#.", "..#.", ""], "\n") == "#.#.\n..#.\n";
  }

  /** The empty text parses to the empty grid. */
  lemma ExampleEmptyGrid()
    ensures WellFormed(Lines("")) && GridOf(Lines("")) == Grid([], 0, 0)
  {
  }

  /** "." and "#" parse to grids of one cell. */
  lemma ExampleOneCellGrids()
    ensures WellFormed(Lines(".")) && GridOf(Lines(".")) == Grid([Empty], 1, 1)
    ensures WellFormed(Lines("#")) && GridOf(Lines("#")) == Grid([Tree], 1, 1)
    ensures Index(GridOf(Lines("#")), (0, 0)) == Tree
  {
    OneCell(".");
    OneCell("#");
  }

  lemma OneCell(line: string)
    requires line == "." || line == "#"
    ensures WellFormed(Lines(line))
    ensures GridOf(Lines(line)) == Grid([CellOf(line[0]).value], 1, 1)
  {
    LinesJoin([line], false);
    assert Rows([line]) == Rows([]) + Row(line);
  }

  /** The small map's lines make a grid 4 wide and 3 high, stored row by row. */
  lemma SmallGrid()
    ensures WellFormed(SMALL_LINES)
    ensures GridOf(SMALL_LINES) == Grid(SMALL_CELLS, 4, 3)
  {
    var ls := SMALL_LINES;
    SmallRows();
    assert ls[..2][..1] == ls[..1] && ls[..1][..0] == [];
    assert Rows(ls[..1]) == Row(ls[0]);
    assert Rows(ls[..2]) == Row(ls[0]) + Row(ls[1]);
    assert ls[..|ls| - 1] == ls[..2];
  }

  lemma SmallRows()
    ensures AllRows(SMALL_LINES)
    ensures Row(SMALL_LINES[0]) == [Empty, Tree, Empty, Empty]
    ensures Row(SMALL_LINES[1]) == [Tree, Empty, Tree, Empty]
    ensures Row(SMALL_LINES[2]) == [Empty, Empty, Tree, Empty]
  {
  }

  /** `Grid::from_string` on the small map. */
  lemma ExampleSmallGrid()
    ensures WellFormed(Lines(SMALL))
    ensures GridOf(Lines(SMALL)) == Grid(SMALL_CELLS, 4, 3)
  {
    SmallLines();
    SmallGrid();
  }

  /** Reading single cells of the small map (the grid ExampleSmallGrid
      builds). */
  lemma ExampleAccess()
    ensures var g := Grid(SMALL_CELLS, 4, 3);
      Index(g, (0, 0)) == Empty && Index(g, (1, 0)) == Tree && Index(g, (2, 0)) == Empty &&
      Index(g, (0, 1)) == Tree && Index(g, (2, 2)) == Tree && Index(g, (3, 2)) == Empty
  {
  }

  /** The ray from the corner along (1, 1) meets an open square, then a
      tree, then falls off the bottom: the trees it counts are one. */
  lemma ExampleRay()
    ensures var g := Grid(SMALL_CELLS, 4, 3);
      LastStep(g, (0, 0), (1, 1)) == 2 &&
      Visit(g, (0, 0), (1, 1), 1) == Some(Empty) &&
      Visit(g, (0, 0), (1, 1), 2) == Some(Tree) &&
      Visit(g, (0, 0), (1, 1), 3) == None &&
      Trees(g, (0, 0), (1, 1), 0, 2) == 1
  {
    assert Position((0, 0), (1, 1), 4, 1) == (1, 1);
    assert Position((0, 0), (1, 1), 4, 2) == (2, 2);
    assert Position((0, 0), (1, 1), 4, 3) == (3, 3);
  }

  /** The map of the puzzle's own example, which `test_ray_cast` also uses:
      eleven lines of eleven characters, each ending in '\n'. */
  const AOC_LINES: seq<string> := ["..##.......", "#...#...#..", ".#....#..#.", "..#.#...#.#", ".#...##..#.",
    "..#.##.....", ".#.#.#....#", ".#........#", "#.##...#...", "#...##....#", ".#..#...#.#"]
  const AOC_MAP := Join(AOC_LINES + [""], "\n")
  /** The cells the ray along (3, 1) reads after each of its ten moves. */
  const AOC_RAY: seq<Cell> := [Empty, Tree, Empty, Tree, Tree, Empty, Tree, Tree, Tree, Tree]

  lemma AocLines()
    ensures Lines(AOC_MAP) == AOC_LINES
  {
    forall k | 0 <= k < |AOC_LINES| ensures PlainLine(AOC_LINES[k]) {
    }
    LinesJoin(AOC_LINES, true);
  }

  lemma AocRectangular()
    ensures Rectangular(AOC_LINES)
  {
    forall k | 0 <= k < |AOC_LINES| ensures IsRow(AOC_LINES[k]) {
    }
  }

  /** Move `k` of the ray along (right, 1) reads column `k * right` (wrapped)
      of line `k`. */
  lemma AocCells()
    ensures forall k :: 1 <= k < |AOC_LINES| ==>
      |AOC_LINES[k]| == |AOC_LINES[0]| && CellOf(AOC_LINES[k][(k * 3) % |AOC_LINES[0]|]) == Some(AOC_RAY[k - 1])
  {
  }

  /** The moves counted up to move `n` are the trees among the cells the
      first `n` moves read. */
  lemma {:induction false} TreesOfVisits(g: Grid, dir: (nat, nat), cells: seq<Cell>, n: nat)
    requires g.width > 0 && n <= |cells|
    requires forall k :: 1 <= k <= |cells| ==> Visit(g, (0, 0), dir, k) == Some(cells[k - 1])
    ensures Trees(g, (0, 0), dir, 0, n) == multiset(cells[..n])[Tree]
  {
    if n > 0 {
      TreesOfVisits(g, dir, cells, n - 1);
      assert cells[..n] == cells[..n - 1] + [cells[n - 1]];
    }
  }

  /** On a rectangular map, move `k` from the corner reads the character at
      column `k * dir.0` (wrapped) of line `k * dir.1`. */
  lemma VisitFromCorner(lines: seq<string>, dir: (nat, nat), k: nat)
    requires Rectangular(lines) && k >= 1 && k * dir.1 < |lines|
    ensures GridOf(lines).width > 0 && |lines[k * dir.1]| == |lines[0]|
    ensures Visit(GridOf(lines), (0, 0), dir, k) == Some(CellOf(lines[k * dir.1][(k * dir.0) % |lines[0]|]).value)
  {
    var x := (k * dir.0) % |lines[0]|;
    IndexRowMajor(lines, x, k * dir.1);
  }

  /** A rectangular map read one line down per move: the slope's tree count
      is the number of trees among the cells the moves read. */
  lemma SlopeCount(lines: seq<string>, right: nat, cells: seq<Cell>)
    requires Rectangular(lines) && |cells| == |lines| - 1
    requires forall k :: 1 <= k < |lines| ==>
      |lines[k]| == |lines[0]| && CellOf(lines[k][(k * right) % |lines[0]|]) == Some(cells[k - 1])
    ensures GridOf(lines).width > 0
    ensures TreesOnSlope(GridOf(lines), (right, 1)) == multiset(cells)[Tree]
  {
    var g := GridOf(lines);
    IndexRowMajor(lines, 0, 0);
    forall k | 1 <= k <= |cells| ensures Visit(g, (0, 0), (right, 1), k) == Some(cells[k - 1]) {
      VisitFromCorner(lines, (right, 1), k);
    }
    assert LastStep(g, (0, 0), (right, 1)) == |cells|;
    TreesOfVisits(g, (right, 1), cells, |cells|);
    assert cells[..|cells|] == cells;
  }

  /** The second half of `test_ray_cast`: on the puzzle's example map the
      ray along (3, 1) from the corner meets 7 trees. */
  lemma ExampleAocRay()
    ensures Lines(AOC_MAP) == AOC_LINES && Rectangular(AOC_LINES)
    ensures GridOf(AOC_LINES).width > 0 && TreesOnSlope(GridOf(Lines(AOC_MAP)), (3, 1)) == 7
  {
    AocLines();
    AocRectangular();
    AocCells();
    SlopeCount(AOC_LINES, 3, AOC_RAY);
    assert multiset(AOC_RAY)[Tree] == 7;
  }
}
