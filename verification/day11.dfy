/** Day 11: the seat layout as a cellular automaton. Every seat looks at its
    eight neighbours; all seats change at once, from the layout as it was
    before the round. */
module Day11 {
  import opened Wrappers
  import opened Text
  import opened Numbers

  datatype State = Empty | Occupied | Floor

  /** `State::from`: 'L', '#' and '.'; any other character panics (`None`). */
  function StateOf(c: char): Option<State> {
    match c
    case 'L' => Some(Empty)
    case '#' => Some(Occupied)
    case '.' => Some(Floor)
    case _ => None
  }

  /** The character the `Display` implementation writes for a state. */
  function StateChar(s: State): char {
    match s
    case Empty => 'L'
    case Occupied => '#'
    case Floor => '.'
  }

  /** The two are inverse: exactly 'L', '#' and '.' are read, and each state
      is read back from its character. */
  lemma StateRoundTrip(c: char, s: State)
    ensures StateOf(StateChar(s)) == Some(s)
    ensures StateOf(c).Some? <==> c == 'L' || c == '#' || c == '.'
    ensures StateOf(c).Some? ==> StateChar(StateOf(c).value) == c
  {
  }

  // ---------------------------------------------------------------------
  // Positions

  type Position = (nat, nat)

  /** The index `x + width * y` of a position in the row-major cells. */
  function Offset(width: nat, p: Position): nat {
    p.0 + width * p.1
  }

  predicate InGrid(width: nat, height: nat, p: Position) {
    p.0 < width && p.1 < height
  }

  /** Every position of the grid. */
  function Positions(width: nat, height: nat): set<Position> {
    set x: nat, y: nat | x < width && y < height :: (x, y)
  }

  lemma InPositions(width: nat, height: nat, p: Position)
    ensures p in Positions(width, height) <==> InGrid(width, height, p)
  {
    if InGrid(width, height, p) {
      var (x, y) := p;
      assert (x, y) in Positions(width, height);
    }
  }

  /** A position inside the grid has its index inside the cells, and no other
      position of the grid shares it. */
  lemma OffsetInside(width: nat, height: nat, p: Position)
    requires InGrid(width, height, p)
    ensures Offset(width, p) < width * height
  {
    MulMonotone(p.1 + 1, height, width);
    assert (p.1 + 1) * width == width * p.1 + width;
  }

  lemma OffsetInjective(width: nat, p: Position, q: Position)
    requires p.0 < width && q.0 < width && Offset(width, p) == Offset(width, q)
    ensures p == q
  {
    assert p.1 * width + p.0 == q.1 * width + q.0;
    DivModUnique(p.1, p.0, q.1, q.0, width);
  }

  /** The position of an index: its remainder and quotient by the width. */
  lemma OffsetOf(width: nat, height: nat, i: nat)
    requires i < width * height
    ensures width > 0 && InGrid(width, height, (i % width, i / width))
    ensures Offset(width, (i % width, i / width)) == i
  {
    DivMod(i, width);
    if i / width >= height {
      MulMonotone(height, i / width, width);
    }
  }

  /** Chebyshev distance one: the eight surrounding positions. */
  predicate Adjacent(p: Position, q: Position) {
    p != q && -1 <= q.0 - p.0 <= 1 && -1 <= q.1 - p.1 <= 1
  }

  /** The neighbours of a position: the adjacent positions inside the grid. */
  function NeighboursOf(width: nat, height: nat, p: Position): set<Position> {
    set x: nat, y: nat | x < width && y < height && Adjacent(p, (x, y)) :: (x, y)
  }

  lemma InNeighbours(width: nat, height: nat, p: Position, q: Position)
    ensures q in NeighboursOf(width, height, p) <==> InGrid(width, height, q) && Adjacent(p, q)
  {
    if InGrid(width, height, q) && Adjacent(p, q) {
      var (x, y) := q;
      assert (x, y) in NeighboursOf(width, height, p);
    }
  }

  /** Being neighbours is symmetric, and nothing is its own neighbour. */
  lemma NeighboursSymmetric(width: nat, height: nat, p: Position, q: Position)
    requires InGrid(width, height, p)
    ensures q in NeighboursOf(width, height, p) <==> InGrid(width, height, q) && p in NeighboursOf(width, height, q)
    ensures p !in NeighboursOf(width, height, p)
  {
    InNeighbours(width, height, p, q);
    InNeighbours(width, height, q, p);
    InNeighbours(width, height, p, p);
  }

  // ---------------------------------------------------------------------
  // One round

  /** The cell at a position. */
  function At(cells: seq<State>, width: nat, p: Position): State
    requires Offset(width, p) < |cells|
  {
    cells[Offset(width, p)]
  }

  /** Every position of `ps` can be read. */
  predicate Readable(cells: seq<State>, width: nat, ps: set<Position>) {
    forall q :: q in ps ==> Offset(width, q) < |cells|
  }

  /** The occupied positions among `ps`. */
  function OccupiedAmong(cells: seq<State>, width: nat, ps: set<Position>): set<Position>
    requires Readable(cells, width, ps)
  {
    set q | q in ps && At(cells, width, q) == Occupied
  }

  /** `next_cell_state_part1`: floor never changes; an empty seat with no
      occupied neighbour is taken; an occupied seat with four or more
      occupied neighbours is left; otherwise `None`, no change. */
  function NextCell(cells: seq<State>, width: nat, p: Position, neighbours: set<Position>): (r: Option<State>)
    requires Offset(width, p) < |cells| && Readable(cells, width, neighbours)
    ensures r.Some? ==> r.value != At(cells, width, p) && r.value != Floor
  {
    match At(cells, width, p)
    case Floor => None
    case Empty =>
      if !exists q :: q in neighbours && At(cells, width, q) == Occupied then Some(Occupied) else None
    case Occupied =>
      if |OccupiedAmong(cells, width, neighbours)| >= 4 then Some(Empty) else None
  }

  /** The rule in terms of the number of occupied neighbours: a seat is taken
      exactly when it is empty and none is occupied, and left exactly when
      it is occupied and at least four are. */
  lemma NextCellRule(cells: seq<State>, width: nat, p: Position, neighbours: set<Position>)
    requires Offset(width, p) < |cells| && Readable(cells, width, neighbours)
    ensures var n := |OccupiedAmong(cells, width, neighbours)|;
      (NextCell(cells, width, p, neighbours) == Some(Occupied) <==> At(cells, width, p) == Empty && n == 0) &&
      (NextCell(cells, width, p, neighbours) == Some(Empty) <==> At(cells, width, p) == Occupied && n >= 4) &&
      (NextCell(cells, width, p, neighbours).None? <==>
        At(cells, width, p) == Floor || (At(cells, width, p) == Empty && n > 0) ||
        (At(cells, width, p) == Occupied && n < 4))
  {
    var occupied := OccupiedAmong(cells, width, neighbours);
    if exists q :: q in neighbours && At(cells, width, q) == Occupied {
      var q :| q in neighbours && At(cells, width, q) == Occupied;
      assert q in occupied;
    } else {
      assert occupied == {};
    }
  }

  /** A grid whose cells fill `width` × `height`. */
  predicate Filled(cells: seq<State>, width: nat, height: nat) {
    |cells| == width * height
  }

  lemma NeighboursReadable(cells: seq<State>, width: nat, height: nat, p: Position)
    requires Filled(cells, width, height)
    ensures Readable(cells, width, NeighboursOf(width, height, p))
  {
    forall q | q in NeighboursOf(width, height, p) ensures Offset(width, q) < |cells| {
      InNeighbours(width, height, p, q);
      OffsetInside(width, height, q);
    }
  }

  /** The rule applied to the neighbours of a position of the grid. */
  function Change(cells: seq<State>, width: nat, height: nat, p: Position): Option<State>
    requires Filled(cells, width, height) && InGrid(width, height, p)
  {
    OffsetInside(width, height, p);
    NeighboursReadable(cells, width, height, p);
    NextCell(cells, width, p, NeighboursOf(width, height, p))
  }

  /** The state of a position after the round. */
  function NextState(cells: seq<State>, width: nat, height: nat, p: Position): State
    requires Filled(cells, width, height) && InGrid(width, height, p)
  {
    OffsetInside(width, height, p);
    match Change(cells, width, height, p)
    case Some(s) => s
    case None => At(cells, width, p)
  }

  /** The new states `transition_part1` collects: one entry per position
      whose state changes, computed from the cells before the round. */
  function Changes(cells: seq<State>, width: nat, height: nat): map<Position, State>
    requires Filled(cells, width, height)
  {
    map p | p in Positions(width, height) && (InPositions(width, height, p); Change(cells, width, height, p).Some?)
      :: (InPositions(width, height, p); Change(cells, width, height, p).value)
  }

  /** The cells after one round. */
  function Step(cells: seq<State>, width: nat, height: nat): (r: seq<State>)
    requires Filled(cells, width, height)
    ensures Filled(r, width, height)
  {
    seq(|cells|, i requires 0 <= i < |cells| =>
      OffsetOf(width, height, i);
      NextState(cells, width, height, (i % width, i / width)))
  }

  /** The positions whose state differs between two grids of the same size. */
  function Differ(a: seq<State>, b: seq<State>, width: nat, height: nat): set<Position>
    requires Filled(a, width, height) && Filled(b, width, height)
  {
    set p | p in Positions(width, height) && (InPositions(width, height, p); OffsetInside(width, height, p);
      At(a, width, p) != At(b, width, p))
  }

  /** Reading a position of the next grid gives its next state. */
  lemma StepAt(cells: seq<State>, width: nat, height: nat, p: Position)
    requires Filled(cells, width, height) && InGrid(width, height, p)
    ensures Offset(width, p) < |Step(cells, width, height)|
    ensures At(Step(cells, width, height), width, p) == NextState(cells, width, height, p)
  {
    var i := Offset(width, p);
    OffsetInside(width, height, p);
    OffsetOf(width, height, i);
    OffsetInjective(width, p, (i % width, i / width));
  }

  /** The entries collected are exactly the positions whose state the round
      changes, each with its new state; the other cells keep theirs. */
  lemma {:induction false} ChangesDiffer(cells: seq<State>, width: nat, height: nat)
    requires Filled(cells, width, height)
    ensures Changes(cells, width, height).Keys == Differ(cells, Step(cells, width, height), width, height)
    ensures forall p :: p in Changes(cells, width, height) ==>
      InGrid(width, height, p) && At(Step(cells, width, height), width, (OffsetInside(width, height, p); p))
        == Changes(cells, width, height)[p]
  {
    var next := Step(cells, width, height);
    var changes := Changes(cells, width, height);
    forall p ensures p in changes <==> p in Differ(cells, next, width, height) {
      InPositions(width, height, p);
      if InGrid(width, height, p) {
        StepAt(cells, width, height, p);
      }
    }
    forall p | p in changes
      ensures InGrid(width, height, p)
      ensures At(next, width, (OffsetInside(width, height, p); p)) == changes[p]
    {
      InPositions(width, height, p);
      StepAt(cells, width, height, p);
    }
  }

  /** A round without changes leaves the grid as it is, and only then: the
      grid is a fixed point, and every further round changes nothing. */
  lemma {:induction false} FixedPoint(cells: seq<State>, width: nat, height: nat)
    requires Filled(cells, width, height)
    ensures |Changes(cells, width, height)| == 0 <==> Step(cells, width, height) == cells
  {
    var next := Step(cells, width, height);
    ChangesDiffer(cells, width, height);
    if |Changes(cells, width, height)| == 0 {
      assert Changes(cells, width, height).Keys == {};
      forall i | 0 <= i < |cells| ensures next[i] == cells[i] {
        OffsetOf(width, height, i);
        var p := (i % width, i / width);
        InPositions(width, height, p);
        assert p !in Differ(cells, next, width, height);
      }
    } else {
      var p :| p in Changes(cells, width, height);
      assert p in Differ(cells, next, width, height);
    }
  }

  /** Floor never changes. */
  lemma StepKeepsFloor(cells: seq<State>, width: nat, height: nat, p: Position)
    requires Filled(cells, width, height) && InGrid(width, height, p)
    requires (OffsetInside(width, height, p); At(cells, width, p) == Floor)
    ensures At(Step(cells, width, height), width, (StepAt(cells, width, height, p); p)) == Floor
  {
    StepAt(cells, width, height, p);
  }
  /** From a layout with no occupied seat, the round takes every seat: no
      empty seat has an occupied neighbour. */
  lemma FirstRound(cells: seq<State>, width: nat, height: nat)
    requires Filled(cells, width, height)
    requires forall i :: 0 <= i < |cells| ==> cells[i] != Occupied
    ensures forall i :: 0 <= i < |cells| ==>
      Step(cells, width, height)[i] == if cells[i] == Floor then Floor else Occupied
  {
    var next := Step(cells, width, height);
    forall i | 0 <= i < |cells| ensures next[i] == if cells[i] == Floor then Floor else Occupied {
      OffsetOf(width, height, i);
      var p := (i % width, i / width);
      NeighboursReadable(cells, width, height, p);
      var neighbours := NeighboursOf(width, height, p);
      assert !exists q :: q in neighbours && At(cells, width, q) == Occupied;
    }
  }


  // ---------------------------------------------------------------------
  // Reading and writing a layout

  /** The cells of a layout read from its non-empty lines, in order: the
      width is the length of the first of them, the height their number;
      `None` if any character is not a state. */
  function LayoutOf(rows: seq<string>): Option<(seq<State>, nat, nat)> {
    match MapAll(StateOf, Concat(rows))
    case None => None
    case Some(cells) => Some((cells, if |rows| == 0 then 0 else |rows[0]|, |rows|))
  }

  /** The layout `Grid::from` reads: lines are split at '\n' and the empty
      ones skipped. */
  function Layout(text: string): Option<(seq<State>, nat, nat)> {
    LayoutOf(NonEmpty(Split(text, '\n')))
  }

  /** The characters of the non-empty lines, in order. */
  function LayoutChars(text: string): string {
    Concat(NonEmpty(Split(text, '\n')))
  }

  /** A layout is read exactly when every character of its non-empty lines
      is a state, and then the cells are read from those characters. */
  lemma LayoutErrors(text: string)
    ensures Layout(text).Some? <==>
      forall k :: 0 <= k < |LayoutChars(text)| ==> StateOf(LayoutChars(text)[k]).Some?
    ensures Layout(text).Some? ==> Chars(Layout(text).value.0) == LayoutChars(text)
  {
    var chars := LayoutChars(text);
    MapAllSome(StateOf, chars);
    if Layout(text).Some? {
      var cells := Layout(text).value.0;
      forall k | 0 <= k < |chars| ensures Chars(cells)[k] == chars[k] {
        StateRoundTrip(chars[k], Empty);
      }
    }
  }

  /** One more line of the layout: a non-empty one is one more row. */
  lemma RowsStep(lines: seq<string>, i: nat)
    requires i < |lines|
    ensures NonEmpty(lines[..i + 1]) == NonEmpty(lines[..i]) + (if lines[i] == "" then [] else [lines[i]])
    ensures Concat(NonEmpty(lines[..i]) + [lines[i]]) == Concat(NonEmpty(lines[..i])) + lines[i]
  {
    assert lines[..i + 1] == lines[..i] + [lines[i]];
    NonEmptyAppend(lines[..i], [lines[i]]);
    ConcatAppend(NonEmpty(lines[..i]), [lines[i]]);
    assert Concat([lines[i]]) == lines[i] + Concat([]);
  }

  /** Reading one more character of a line. */
  lemma ReadChar(prefix: string, line: string, j: nat, cells: seq<State>)
    requires j < |line| && MapAll(StateOf, prefix + line[..j]) == Some(cells)
    ensures MapAll(StateOf, prefix + line[..j + 1]) ==
      match StateOf(line[j])
      case Some(s) => Some(cells + [s])
      case None => None
  {
    assert prefix + line[..j + 1] == prefix + line[..j] + [line[j]];
    MapAllSnoc(StateOf, prefix + line[..j], line[j]);
  }

  /** A line read to its end is one more row of the layout; an empty line
      is skipped. */
  lemma ReadLine(lines: seq<string>, i: nat, cells: seq<State>, width: nat)
    requires i < |lines|
    requires var rows, line := NonEmpty(lines[..i]), lines[i];
      line != "" && MapAll(StateOf, Concat(rows) + line) == Some(cells) &&
      width == if |rows| == 0 then |line| else |rows[0]|
    ensures LayoutOf(NonEmpty(lines[..i + 1])) == Some((cells, width, |NonEmpty(lines[..i])| + 1))
  {
    RowsStep(lines, i);
    LineRows(NonEmpty(lines[..i]), lines[i], cells, width);
  }

  lemma LineRows(rows: seq<string>, line: string, cells: seq<State>, width: nat)
    requires line != "" && MapAll(StateOf, Concat(rows) + line) == Some(cells)
    requires width == if |rows| == 0 then |line| else |rows[0]|
    ensures LayoutOf(rows + [line]) == Some((cells, width, |rows| + 1))
  {
    assert (rows + [line])[0] == if |rows| == 0 then line else rows[0];
    ConcatAppend(rows, [line]);
    assert Concat([line]) == line + Concat([]);
    assert Concat(rows + [line]) == Concat(rows) + line;
    assert MapAll(StateOf, Concat(rows + [line])) == Some(cells);
  }

  /** A character that is not a state in line `i` makes the whole layout
      unreadable. */
  lemma LayoutFailsAt(lines: seq<string>, i: nat)
    requires i < |lines| && lines[i] != ""
    requires MapAll(StateOf, Concat(NonEmpty(lines[..i])) + lines[i]).None?
    ensures LayoutOf(NonEmpty(lines)).None?
  {
    var head, tail := lines[..i + 1], lines[i + 1..];
    RowsStep(lines, i);
    assert NonEmpty(head) == NonEmpty(lines[..i]) + [lines[i]];
    ReadFails(NonEmpty(head), NonEmpty(tail));
    LinesSplit(lines, i + 1);
  }

  lemma LinesSplit(lines: seq<string>, n: nat)
    requires n <= |lines|
    ensures NonEmpty(lines) == NonEmpty(lines[..n]) + NonEmpty(lines[n..])
  {
    assert lines == lines[..n] + lines[n..];
    NonEmptyAppend(lines[..n], lines[n..]);
  }

  lemma ReadFails(rows: seq<string>, more: seq<string>)
    requires MapAll(StateOf, Concat(rows)).None?
    ensures MapAll(StateOf, Concat(rows + more)).None?
  {
    ConcatAppend(rows, more);
    var all := Concat(rows + more);
    assert all[..|Concat(rows)|] == Concat(rows);
    MapAllStops(StateOf, all, |Concat(rows)|);
  }



  /** Lines of one length make a rectangle: the cells fill width × height. */
  lemma {:induction false} LayoutFilled(rows: seq<string>)
    requires LayoutOf(rows).Some?
    requires forall k :: 0 <= k < |rows| ==> |rows[k]| == |rows[0]|
    ensures var (cells, width, height) := LayoutOf(rows).value; Filled(cells, width, height)
  {
    if |rows| > 0 {
      ConcatLength(rows, |rows[0]|);
    }
  }

  lemma {:induction false} ConcatLength(rows: seq<string>, width: nat)
    requires forall k :: 0 <= k < |rows| ==> |rows[k]| == width
    ensures |Concat(rows)| == width * |rows|
    decreases |rows|
  {
    if |rows| > 0 {
      ConcatLength(rows[1..], width);
    }
  }

  /** The characters of some cells. */
  function Chars(cells: seq<State>): (r: string)
    ensures |r| == |cells|
  {
    seq(|cells|, k requires 0 <= k < |cells| => StateChar(cells[k]))
  }

  /** The characters `Display` writes for row `y`. */
  function Row(cells: seq<State>, width: nat, y: nat): string
    requires width * y + width <= |cells|
  {
    Chars(cells[width * y..width * y + width])
  }

  /** `Display`: the first `n` rows, each followed by '\n'. */
  function RenderOf(cells: seq<State>, width: nat, n: nat): string
    requires width * n <= |cells|
  {
    if n == 0 then ""
    else
      assert width * (n - 1) + width == width * n;
      RenderOf(cells, width, n - 1) + Row(cells, width, n - 1) + "\n"
  }

  /** The first `n` rows. */
  function RowList(cells: seq<State>, width: nat, n: nat): (r: seq<string>)
    requires width * n <= |cells|
    ensures |r| == n
  {
    if n == 0 then []
    else
      assert width * (n - 1) + width == width * n;
      RowList(cells, width, n - 1) + [Row(cells, width, n - 1)]
  }

  lemma {:induction false} RowListAt(cells: seq<State>, width: nat, n: nat, y: nat)
    requires width * n <= |cells| && y < n
    ensures width * y + width <= |cells| && RowList(cells, width, n)[y] == Row(cells, width, y)
  {
    assert width * (n - 1) + width == width * n;
    if y < n - 1 {
      RowListAt(cells, width, n - 1, y);
    }
  }

  lemma {:induction false} RenderJoin(cells: seq<State>, width: nat, n: nat)
    requires width * n <= |cells| && n > 0
    ensures RenderOf(cells, width, n) == Join(RowList(cells, width, n), "\n") + "\n"
  {
    assert width * (n - 1) + width == width * n;
    if n > 1 {
      RenderJoin(cells, width, n - 1);
      JoinSnoc(RowList(cells, width, n - 1), Row(cells, width, n - 1), "\n");
    }
  }

  lemma CharsSplit(cells: seq<State>, a: nat, b: nat)
    requires a <= b <= |cells|
    ensures Chars(cells[..b]) == Chars(cells[..a]) + Chars(cells[a..b])
  {
  }

  lemma {:induction false} RowListConcat(cells: seq<State>, width: nat, n: nat)
    requires width * n <= |cells|
    ensures Concat(RowList(cells, width, n)) == Chars(cells[..width * n])
  {
    if n > 0 {
      var start := width * (n - 1);
      assert start + width == width * n;
      RowListConcat(cells, width, n - 1);
      ConcatAppend(RowList(cells, width, n - 1), [Row(cells, width, n - 1)]);
      CharsSplit(cells, start, start + width);
    }
  }

  /** The non-empty lines of what `Display` writes are the rows. */
  lemma RenderRows(cells: seq<State>, width: nat, height: nat)
    requires Filled(cells, width, height) && width > 0 && height > 0
    ensures NonEmpty(Split(RenderOf(cells, width, height), '\n')) == RowList(cells, width, height)
    ensures forall k :: 0 <= k < height ==> |RowList(cells, width, height)[k]| == width
  {
    var rows := RowList(cells, width, height);
    forall k | 0 <= k < |rows| ensures '\n' !in rows[k] && |rows[k]| == width {
      RowListAt(cells, width, height, k);
    }
    var pieces := rows + [""];
    forall k | 0 <= k < |pieces| ensures '\n' !in pieces[k] {
      if k < |rows| {
        assert pieces[k] == rows[k];
      }
    }
    RenderJoin(cells, width, height);
    JoinSnoc(rows, "", "\n");
    assert RenderOf(cells, width, height) == Join(pieces, "\n");
    SplitJoin(pieces, '\n');
    NonEmptyAppend(rows, [""]);
    forall k | 0 <= k < |rows| ensures rows[k] != "" {
      assert |rows[k]| == width;
    }
    NonEmptyKeeps(rows);
  }

  /** Reading back what `Display` writes gives the grid again, for a grid
      of at least one row and one column. */
  lemma {:induction false} RenderRoundTrip(cells: seq<State>, width: nat, height: nat)
    requires Filled(cells, width, height) && width > 0 && height > 0
    ensures Layout(RenderOf(cells, width, height)) == Some((cells, width, height))
  {
    RenderRows(cells, width, height);
    RowListConcat(cells, width, height);
    assert cells[..width * height] == cells;
    var chars := Chars(cells);
    MapAllSome(StateOf, chars);
    assert MapAll(StateOf, chars).value == cells;
  }

  // ---------------------------------------------------------------------
  // The grid

  /** The position offset (`dx`, `dy`) from `p`, if it is a neighbour. */
  function Landing(width: nat, height: nat, p: Position, dy: int, dx: int): set<Position> {
    if !(dx == 0 && dy == 0) && 0 <= p.0 + dx < width && 0 <= p.1 + dy < height
    then {(p.0 + dx, p.1 + dy)} else {}
  }

  /** The offset from `p` to `q` comes before (`dx`, `dy`) in the order the
      offsets are tried: row by row, left to right. */
  predicate Visited(p: Position, q: Position, dy: int, dx: int) {
    q.1 - p.1 < dy || (q.1 - p.1 == dy && q.0 - p.0 < dx)
  }

  /** `found` holds exactly the neighbours of `p` whose offsets come before
      (`dx`, `dy`). */
  ghost predicate Scanned(width: nat, height: nat, p: Position, found: set<Position>, dy: int, dx: int) {
    forall q :: q in found <==> q in NeighboursOf(width, height, p) && Visited(p, q, dy, dx)
  }

  lemma ScanStart(width: nat, height: nat, p: Position)
    ensures Scanned(width, height, p, {}, -1, -1)
  {
    forall q ensures !(q in NeighboursOf(width, height, p) && Visited(p, q, -1, -1)) {
      InNeighbours(width, height, p, q);
    }
  }

  /** Trying one more offset adds exactly the neighbour it lands on. */
  lemma VisitStep(width: nat, height: nat, p: Position, before: set<Position>, after: set<Position>, dy: int, dx: int)
    requires -1 <= dy <= 1 && -1 <= dx <= 1
    requires Scanned(width, height, p, before, dy, dx)
    requires after == before + Landing(width, height, p, dy, dx)
    ensures Scanned(width, height, p, after, dy, dx + 1)
  {
    forall q ensures q in after <==> q in NeighboursOf(width, height, p) && Visited(p, q, dy, dx + 1) {
      InNeighbours(width, height, p, q);
    }
  }

  /** After the offset (1, `dy`) the row is done. */
  lemma RowDone(width: nat, height: nat, p: Position, found: set<Position>, dy: int)
    requires Scanned(width, height, p, found, dy, 2)
    ensures Scanned(width, height, p, found, dy + 1, -1)
  {
    forall q ensures q in found <==> q in NeighboursOf(width, height, p) && Visited(p, q, dy + 1, -1) {
      InNeighbours(width, height, p, q);
    }
  }

  /** After the last row every neighbour has been found. */
  lemma ScanDone(width: nat, height: nat, p: Position, found: set<Position>)
    requires Scanned(width, height, p, found, 2, -1)
    ensures found == NeighboursOf(width, height, p)
  {
    forall q ensures q in found <==> q in NeighboursOf(width, height, p) {
      InNeighbours(width, height, p, q);
    }
  }

  /** A position lands on offset (`dx`, `dy`) from `p` exactly when it is
      the neighbour at that offset. */
  lemma LandingNeighbour(width: nat, height: nat, p: Position, dy: int, dx: int, q: Position)
    requires -1 <= dy <= 1 && -1 <= dx <= 1
    ensures q in Landing(width, height, p, dy, dx) <==>
      q in NeighboursOf(width, height, p) && q.1 - p.1 == dy && q.0 - p.0 == dx
  {
    InNeighbours(width, height, p, q);
  }

  /** The landings of the eight offsets. */
  function Landings(width: nat, height: nat, p: Position): set<Position> {
    Landing(width, height, p, -1, -1) + Landing(width, height, p, -1, 0) + Landing(width, height, p, -1, 1) +
    Landing(width, height, p, 0, -1) + Landing(width, height, p, 0, 1) +
    Landing(width, height, p, 1, -1) + Landing(width, height, p, 1, 0) + Landing(width, height, p, 1, 1)
  }

  lemma InLandings(width: nat, height: nat, p: Position, q: Position)
    ensures q in NeighboursOf(width, height, p) <==> q in Landings(width, height, p)
  {
    InNeighbours(width, height, p, q);
    if q in NeighboursOf(width, height, p) {
      LandingNeighbour(width, height, p, q.1 - p.1, q.0 - p.0, q);
    }
  }

  /** The neighbours are the landings of the eight offsets, one position at
      most each, so a position has at most eight neighbours. */
  lemma AtMostEight(width: nat, height: nat, p: Position)
    ensures |NeighboursOf(width, height, p)| <= 8
  {
    forall q ensures q in NeighboursOf(width, height, p) <==> q in Landings(width, height, p) {
      InLandings(width, height, p, q);
    }
    assert NeighboursOf(width, height, p) == Landings(width, height, p);
    LandingsSize(width, height, p);
  }

  lemma LandingsSize(width: nat, height: nat, p: Position)
    ensures |Landings(width, height, p)| <= 8
  {
    var a := Landing(width, height, p, -1, -1) + Landing(width, height, p, -1, 0);
    var b := a + Landing(width, height, p, -1, 1);
    var c := b + Landing(width, height, p, 0, -1);
    var d := c + Landing(width, height, p, 0, 1);
    var e := d + Landing(width, height, p, 1, -1);
    var f := e + Landing(width, height, p, 1, 0);
    assert |a| <= 2 && |b| <= 3 && |c| <= 4 && |d| <= 5 && |e| <= 6 && |f| <= 7;
  }

  /** `found` holds the new state of exactly the positions before index
      `limit` whose state the round changes. */
  ghost predicate Collected(cells: seq<State>, width: nat, height: nat, found: map<Position, State>, limit: nat)
    requires Filled(cells, width, height)
  {
    (forall q :: q in found ==> InGrid(width, height, q) && Offset(width, q) < limit) &&
    (forall q :: InGrid(width, height, q) && Offset(width, q) < limit ==>
      (q in found <==> Change(cells, width, height, q).Some?)) &&
    (forall q :: q in found ==> Change(cells, width, height, q) == Some(found[q]))
  }

  /** Looking at the position with index `limit` extends the collection by
      that position. */
  lemma CollectStep(cells: seq<State>, width: nat, height: nat, found: map<Position, State>,
                    next: map<Position, State>, p: Position)
    requires Filled(cells, width, height) && InGrid(width, height, p)
    requires Collected(cells, width, height, found, Offset(width, p))
    requires next == match Change(cells, width, height, p)
      case Some(s) => found[p := s]
      case None => found
    ensures Collected(cells, width, height, next, Offset(width, p) + 1)
  {
    forall q | InGrid(width, height, q) && Offset(width, q) == Offset(width, p) ensures q == p {
      OffsetInjective(width, p, q);
    }
  }

  /** Once every index is looked at, the collection is `Changes`. */
  lemma CollectDone(cells: seq<State>, width: nat, height: nat, found: map<Position, State>)
    requires Filled(cells, width, height)
    requires Collected(cells, width, height, found, width * height)
    ensures found == Changes(cells, width, height)
  {
    var changes := Changes(cells, width, height);
    forall q ensures q in found <==> q in changes {
      InPositions(width, height, q);
      if InGrid(width, height, q) {
        OffsetInside(width, height, q);
      }
    }
    forall q | q in found ensures found[q] == changes[q] {
      InPositions(width, height, q);
    }
  }

  /** The cells hold the collected state of every position already written
      (those of `found` not in `pending`) and their old state elsewhere. */
  ghost predicate Applied(start: seq<State>, cells: seq<State>, width: nat, height: nat,
                          found: map<Position, State>, pending: set<Position>)
    requires Filled(start, width, height) && Filled(cells, width, height)
  {
    forall q :: InGrid(width, height, q) ==>
      Offset(width, q) < |cells| && Offset(width, q) < |start| &&
      At(cells, width, q) == if q in found && q !in pending then found[q] else At(start, width, q)
  }

  /** Before anything is written the cells are the old ones. */
  lemma ApplyStart(start: seq<State>, width: nat, height: nat, found: map<Position, State>)
    requires Filled(start, width, height)
    ensures Applied(start, start, width, height, found, found.Keys)
  {
    forall q | InGrid(width, height, q) ensures Offset(width, q) < |start| {
      OffsetInside(width, height, q);
    }
  }

  /** Writing one pending position keeps the cells as described. */
  lemma ApplyStep(start: seq<State>, cells: seq<State>, next: seq<State>, width: nat, height: nat,
                  found: map<Position, State>, pending: set<Position>, p: Position)
    requires Filled(start, width, height) && Filled(cells, width, height)
    requires Applied(start, cells, width, height, found, pending)
    requires p in pending && p in found && InGrid(width, height, p)
    requires (OffsetInside(width, height, p); next == cells[Offset(width, p) := found[p]])
    ensures Filled(next, width, height)
    ensures Applied(start, next, width, height, found, pending - {p})
  {
    forall q | InGrid(width, height, q)
      ensures Offset(width, q) < |next| && Offset(width, q) < |start| &&
        At(next, width, q) == if q in found && q !in pending - {p} then found[q] else At(start, width, q)
    {
      if Offset(width, q) == Offset(width, p) {
        OffsetInjective(width, p, q);
      }
    }
  }

  /** With every change written, the cells are those of the next round. */
  lemma ApplyDone(start: seq<State>, cells: seq<State>, width: nat, height: nat)
    requires Filled(start, width, height) && Filled(cells, width, height)
    requires Applied(start, cells, width, height, Changes(start, width, height), {})
    ensures cells == Step(start, width, height)
  {
    var next := Step(start, width, height);
    var changes := Changes(start, width, height);
    forall i | 0 <= i < |cells| ensures cells[i] == next[i] {
      OffsetOf(width, height, i);
      var p := (i % width, i / width);
      InPositions(width, height, p);
      StepAt(start, width, height, p);
    }
  }

  /** `Grid`: the cells in row-major order; width and height are fixed when
      the grid is read. */
  class Grid {
    var cells: seq<State>
    const width: nat
    const height: nat

    /** The cells fill the rectangle, as they do for a layout whose
        non-empty lines have one length. */
    predicate Valid()
      reads this
    {
      Filled(cells, width, height)
    }

    constructor (cells: seq<State>, width: nat, height: nat)
      ensures this.cells == cells && this.width == width && this.height == height
    {
      this.cells := cells;
      this.width := width;
      this.height := height;
    }

    /** `Index`: the cell at `x + width * y`; the source panics past the
        cells. */
    function Get(p: Position): (s: State)
      reads this
      requires Offset(width, p) < |cells|
      ensures s == At(cells, width, p)
    {
      cells[p.0 + width * p.1]
    }

    /** `IndexMut`: overwrite the cell at `x + width * y`. */
    method Set(p: Position, s: State)
      requires Offset(width, p) < |cells|
      modifies this
      ensures cells == old(cells)[Offset(width, p) := s]
    {
      cells := cells[p.0 + width * p.1 := s];
    }

    /** `get_adjacent_positions`: the offsets -1, 0, 1 in both directions,
        skipping (0, 0), kept where they land inside the grid. */
    method AdjacentPositions(p: Position) returns (neighbours: set<Position>)
      ensures neighbours == NeighboursOf(width, height, p)
    {
      neighbours := {};
      ScanStart(width, height, p);
      var dy := -1;
      while dy <= 1
        invariant -1 <= dy <= 2
        invariant Scanned(width, height, p, neighbours, dy, -1)
      {
        var dx := -1;
        while dx <= 1
          invariant -1 <= dx <= 2
          invariant Scanned(width, height, p, neighbours, dy, dx)
        {
          ghost var before := neighbours;
          if !(dx == 0 && dy == 0) {
            var x, y := p.0 + dx, p.1 + dy;
            if x < width && x >= 0 && y < height && y >= 0 {
              neighbours := neighbours + {(x, y)};
              assert Landing(width, height, p, dy, dx) == {(x, y)};
            } else {
              assert Landing(width, height, p, dy, dx) == {};
            }
          } else {
            assert Landing(width, height, p, dy, dx) == {};
          }
          VisitStep(width, height, p, before, neighbours, dy, dx);
          dx := dx + 1;
        }
        RowDone(width, height, p, neighbours, dy);
        dy := dy + 1;
      }
      ScanDone(width, height, p, neighbours);
    }

    /** `Grid::from`: the characters of every non-empty line are pushed in
        order; the width is counted while the first of them is read and the
        height is the number of them. `None` where `State::from` panics. */
    static method From(text: string) returns (grid: Option<Grid>)
      ensures grid.None? <==> Layout(text).None?
      ensures grid.Some? ==>
        fresh(grid.value) && Layout(text) == Some((grid.value.cells, grid.value.width, grid.value.height))
    {
      var lines := Split(text, '\n');
      var cells: seq<State> := [];
      var height: nat := 0;
      var width: nat := 0;
      for i := 0 to |lines|
        invariant LayoutOf(NonEmpty(lines[..i])) == Some((cells, width, height))
      {
        var line := lines[i];
        ghost var rows := NonEmpty(lines[..i]);
        if line != "" {
          var row := ReadRow(Concat(rows), line, cells, width, height);
          if row.None? {
            LayoutFailsAt(lines, i);
            return None;
          }
          cells, width := row.value.0, row.value.1;
          ReadLine(lines, i, cells, width);
          height := height + 1;
        } else {
          RowsStep(lines, i);
          assert NonEmpty(lines[..i + 1]) == rows;
        }
      }
      assert lines[..|lines|] == lines;
      var g := new Grid(cells, width, height);
      return Some(g);
    }

    /** The inner loop of `Grid::from`: the state of every character of a
        line is pushed, and the width counted while no row is complete
        (`height` is 0). `None` where `State::from` panics. */
    static method ReadRow(ghost read: string, line: string, cells: seq<State>, width: nat, height: nat)
      returns (row: Option<(seq<State>, nat)>)
      requires MapAll(StateOf, read) == Some(cells)
      ensures row.None? <==> MapAll(StateOf, read + line).None?
      ensures row.Some? ==> MapAll(StateOf, read + line) == Some(row.value.0)
      ensures row.Some? ==> row.value.1 == width + if height == 0 then |line| else 0
    {
      var pushed, counted := cells, width;
      assert read + line[..0] == read;
      for j := 0 to |line|
        invariant MapAll(StateOf, read + line[..j]) == Some(pushed)
        invariant counted == width + if height == 0 then j else 0
      {
        ReadChar(read, line, j, pushed);
        var state := StateOf(line[j]);
        if state.None? {
          assert (read + line)[..|read| + j + 1] == read + line[..j + 1];
          MapAllStops(StateOf, read + line, |read| + j + 1);
          return None;
        }
        pushed := pushed + [state.value];
        if height == 0 {
          counted := counted + 1;
        }
      }
      assert line[..|line|] == line;
      return Some((pushed, counted));
    }

    /** `Display`: every row, left to right, followed by '\n'. */
    method Render() returns (text: string)
      requires Valid()
      ensures text == RenderOf(cells, width, height)
    {
      text := "";
      for y := 0 to height
        invariant width * y <= |cells|
        invariant text == RenderOf(cells, width, y)
      {
        var start := width * y;
        assert start + width == width * (y + 1);
        MulMonotone(y + 1, height, width);
        ghost var row := cells[start..start + width];
        for x := 0 to width
          invariant text == RenderOf(cells, width, y) + Chars(row[..x])
        {
          assert row[x] == cells[x + start];
          assert Chars(row[..x + 1]) == Chars(row[..x]) + [StateChar(row[x])];
          text := text + [StateChar(Get((x, y)))];
        }
        assert row[..width] == row;
        text := text + "\n";
      }
    }

    /** The first half of `transition_part1`: the new state of every
        position, computed row by row from the grid as it is, kept where it
        differs from the old one. */
    method CollectChanges() returns (newStates: map<Position, State>)
      requires Valid()
      ensures newStates == Changes(cells, width, height)
    {
      newStates := map[];
      var y := 0;
      while y < height
        invariant y <= height
        invariant Collected(cells, width, height, newStates, width * y)
      {
        var x := 0;
        while x < width
          invariant x <= width
          invariant Collected(cells, width, height, newStates, x + width * y)
        {
          var position := (x, y);
          var neighbours := AdjacentPositions(position);
          OffsetInside(width, height, position);
          NeighboursReadable(cells, width, height, position);
          var newState := NextCell(cells, width, position, neighbours);
          ghost var before := newStates;
          if newState.Some? {
            newStates := newStates[position := newState.value];
          }
          CollectStep(cells, width, height, before, newStates, position);
          x := x + 1;
        }
        assert width + width * y == width * (y + 1);
        y := y + 1;
      }
      CollectDone(cells, width, height, newStates);
    }

    /** `transition_part1`: the changes are collected from the grid as it
        was, then written in any order; the result is the number of cells
        that changed. */
    method Transition() returns (count: nat)
      requires Valid()
      modifies this
      ensures Valid()
      ensures cells == Step(old(cells), width, height)
      ensures count == |Changes(old(cells), width, height)|
      ensures count == |Differ(old(cells), cells, width, height)|
    {
      var newStates := CollectChanges();
      var pending := newStates.Keys;
      ApplyStart(old(cells), width, height, newStates);
      while pending != {}
        invariant pending <= newStates.Keys && Valid()
        invariant Applied(old(cells), cells, width, height, newStates, pending)
        decreases pending
      {
        var position :| position in pending;
        OffsetInside(width, height, position);
        ghost var before := cells;
        Set(position, newStates[position]);
        ApplyStep(old(cells), before, cells, width, height, newStates, pending, position);
        pending := pending - {position};
      }
      ApplyDone(old(cells), cells, width, height);
      ChangesDiffer(old(cells), width, height);
      count := |newStates|;
    }
  }
}

/** The layouts of the puzzle's tests. */
module Day11Examples {
  import opened Wrappers
  import opened Day11

  /** `test_getting_neighbors_part1`: on the 10 × 10 example, a corner has
      three neighbours and (3, 1) has all eight. */
  lemma ExampleNeighbours()
    ensures NeighboursOf(10, 10, (0, 0)) == {(0, 1), (1, 0), (1, 1)}
    ensures NeighboursOf(10, 10, (3, 1)) ==
      {(2, 0), (2, 1), (2, 2), (3, 0), (3, 2), (4, 0), (4, 1), (4, 2)}
  {
    forall q ensures q in NeighboursOf(10, 10, (0, 0)) <==> q in {(0, 1), (1, 0), (1, 1)} {
      InNeighbours(10, 10, (0, 0), q);
    }
    forall q ensures q in NeighboursOf(10, 10, (3, 1)) <==>
      q in {(2, 0), (2, 1), (2, 2), (3, 0), (3, 2), (4, 0), (4, 1), (4, 2)}
    {
      InNeighbours(10, 10, (3, 1), q);
    }
  }

  /** A small layout is read into its cells, row by row. */
  lemma SmallLayout()
    ensures Layout("L.#\n#.L\n") == Some(([Empty, Floor, Occupied, Occupied, Floor, Empty], 3, 2))
  {
    var cells := [Empty, Floor, Occupied, Occupied, Floor, Empty];
    assert Row(cells, 3, 0) == "L.#";
    assert Row(cells, 3, 1) == "#.L";
    assert RenderOf(cells, 3, 2) == "L.#\n#.L\n";
    RenderRoundTrip(cells, 3, 2);
  }
}
