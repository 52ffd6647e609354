/**
 The rules engine of the falling-block puzzle fixture: a grid of integer
 cells (0 is empty), line clearing with scoring, and the game-over check.

 A board is a sequence of rows, row 0 at the top. The game object keeps its
 rows in a fixed-size array of row values: clearing lines replaces whole
 rows, it never edits a row in place.
 */
module Tetris {

  /** Grid dimensions fixed when a game is created. */
  const Width: nat := 10
  const Height: nat := 20

  /** Points awarded per cleared row. */
  const PointsPerLine: nat := 100

  /** The piece shapes a new piece is drawn from. */
  const Shapes: seq<char> := ['I', 'J', 'L', 'O', 'S', 'T', 'Z']

  type Row = seq<int>
  type Grid = seq<Row>

  /** A row of `n` empty cells. */
  function Blank(n: nat): (row: Row)
    ensures |row| == n
    ensures forall c :: 0 <= c < n ==> row[c] == 0
  {
    seq(n, _ => 0)
  }

  /** `k` empty rows of the grid's width. */
  function BlankRows(k: nat): (rows: Grid)
    ensures |rows| == k
    ensures forall y :: 0 <= y < k ==> rows[y] == Blank(Width)
  {
    seq(k, _ => Blank(Width))
  }

  /** A row is full when none of its cells is empty. */
  predicate IsFull(row: Row)
  {
    forall c :: 0 <= c < |row| ==> row[c] != 0
  }

  /** A row is occupied when some cell is non-empty. */
  predicate Occupied(row: Row)
  {
    exists c :: 0 <= c < |row| && row[c] != 0
  }

  predicate RowsOfWidth(g: Grid)
  {
    forall y :: 0 <= y < |g| ==> |g[y]| == Width
  }

  /** The rows that are not full, in their original order. */
  function Kept(g: Grid): Grid
  {
    if g == [] then []
    else Kept(g[..|g| - 1]) + (if IsFull(g[|g| - 1]) then [] else [g[|g| - 1]])
  }

  /** The number of full rows. */
  function FullCount(g: Grid): nat
  {
    if g == [] then 0
    else FullCount(g[..|g| - 1]) + (if IsFull(g[|g| - 1]) then 1 else 0)
  }

  /** The board after clearing: one blank row on top per removed full row,
      then the surviving rows. */
  function Cleared(g: Grid): Grid
  {
    BlankRows(FullCount(g)) + Kept(g)
  }

  // ---------------------------------------------------------------------
  // Properties of line clearing
  // ---------------------------------------------------------------------

  /** Every row is either kept or counted as full. */
  lemma {:induction false} KeptCount(g: Grid)
    ensures |Kept(g)| + FullCount(g) == |g|
  {
    if g != [] {
      KeptCount(g[..|g| - 1]);
    }
  }

  /** The surviving rows are exactly the non-full rows of the board, unchanged. */
  lemma {:induction false} KeptRows(g: Grid)
    ensures forall r :: r in Kept(g) ==> r in g && !IsFull(r)
    ensures forall y :: 0 <= y < |g| && !IsFull(g[y]) ==> g[y] in Kept(g)
  {
    if g != [] {
      var init := g[..|g| - 1];
      KeptRows(init);
      assert forall y :: 0 <= y < |init| ==> init[y] == g[y];
      assert forall r :: r in init ==> r in g;
    }
  }

  /** Clearing works row by row: the survivors of two stacked parts are the
      survivors of the upper part followed by those of the lower part, so
      relative order is kept. */
  lemma {:induction false} KeptAppend(a: Grid, b: Grid)
    ensures Kept(a + b) == Kept(a) + Kept(b)
    ensures FullCount(a + b) == FullCount(a) + FullCount(b)
  {
    if b == [] {
      assert a + b == a;
    } else {
      var b' := b[..|b| - 1];
      KeptAppend(a, b');
      assert (a + b)[..|a + b| - 1] == a + b';
    }
  }

  /** A stretch of non-full rows survives whole and adds nothing to the count. */
  lemma {:induction false} KeptGap(g: Grid, p: nat, q: nat)
    requires p <= q <= |g|
    requires forall k :: p <= k < q ==> !IsFull(g[k])
    ensures Kept(g[..q]) == Kept(g[..p]) + g[p..q]
    ensures FullCount(g[..q]) == FullCount(g[..p])
    decreases q - p
  {
    if p < q {
      KeptGap(g, p, q - 1);
      assert g[..q][..q - 1] == g[..q - 1];
      assert g[p..q] == g[p..q - 1] + [g[q - 1]];
    }
  }

  /** A full row is dropped and counted. */
  lemma KeptFullRow(g: Grid, y: nat)
    requires y < |g| && IsFull(g[y])
    ensures Kept(g[..y + 1]) == Kept(g[..y])
    ensures FullCount(g[..y + 1]) == FullCount(g[..y]) + 1
  {
    assert g[..y + 1][..y] == g[..y];
  }

  /** The board after deleting row `y` and inserting a blank row on top. */
  function DeleteInsert(g: Grid, y: nat): Grid
    requires y < |g|
  {
    [Blank(Width)] + g[..y] + g[y + 1..]
  }

  /** The indices of the full rows, top to bottom. */
  function FullRows(g: Grid): seq<nat>
  {
    if g == [] then []
    else FullRows(g[..|g| - 1]) + (if IsFull(g[|g| - 1]) then [|g| - 1] else [])
  }

  /** `lines` lists the indices of exactly the full rows of `g`, in increasing order. */
  predicate FullRowIndex(g: Grid, lines: seq<nat>)
  {
    && (forall i, j :: 0 <= i < j < |lines| ==> lines[i] < lines[j])
    && (forall i :: 0 <= i < |lines| ==> lines[i] < |g| && IsFull(g[lines[i]]))
    && (forall y :: 0 <= y < |g| && IsFull(g[y]) ==> y in lines)
  }

  /** `FullRows` lists exactly the full rows, in increasing order, one per
      full row. */
  lemma {:induction false} FullRowsIndex(g: Grid)
    ensures FullRowIndex(g, FullRows(g))
    ensures |FullRows(g)| == FullCount(g)
  {
    if g != [] {
      var n := |g| - 1;
      var init := g[..n];
      FullRowsIndex(init);
      var prev := FullRows(init);
      var lines := FullRows(g);
      assert lines == prev + (if IsFull(g[n]) then [n] else []);
      forall i | 0 <= i < |lines|
        ensures lines[i] < |g| && IsFull(g[lines[i]])
      {
        if i < |prev| {
          assert lines[i] == prev[i] && init[prev[i]] == g[prev[i]];
        }
      }
      forall i, j | 0 <= i < j < |lines|
        ensures lines[i] < lines[j]
      {
        assert lines[i] == prev[i];
        if j < |prev| {
          assert lines[j] == prev[j];
        }
      }
      forall y | 0 <= y < |g| && IsFull(g[y])
        ensures y in lines
      {
        if y < n {
          assert init[y] == g[y];
          assert y in prev;
        }
      }
    }
  }

  /** The number of top rows already processed once the first `i` listed
      rows are cleared: everything down to the `i`-th listed row. */
  function ClearedUpTo(g: Grid, lines: seq<nat>, i: nat): (p: nat)
    ensures p <= |g|
  {
    if i == 0 || i > |lines| || lines[i - 1] >= |g| then 0 else lines[i - 1] + 1
  }

  /** The board after the first `i` listed rows are cleared: `i` blank
      rows, the survivors among the processed top rows, then the rest. */
  function Stage(g: Grid, lines: seq<nat>, i: nat): Grid
  {
    var p := ClearedUpTo(g, lines, i);
    BlankRows(i) + Kept(g[..p]) + g[p..]
  }

  /** In a strictly increasing list of all full-row indices, the rows after
      the `i`-th entry's predecessor and before the `i`-th entry (or the end)
      are not full. */
  lemma SortedGap(g: Grid, lines: seq<nat>, i: nat)
    requires i <= |lines|
    requires FullRowIndex(g, lines)
    ensures var p := ClearedUpTo(g, lines, i);
      forall k :: p <= k < (if i < |lines| then lines[i] else |g|) && k < |g| ==> !IsFull(g[k])
  {
    var p := ClearedUpTo(g, lines, i);
    assert forall m :: 0 <= m < i ==> lines[m] < p by {
      forall m | 0 <= m < i ensures lines[m] < p {
        if m < i - 1 {
          assert lines[m] < lines[i - 1];
        }
      }
    }
    forall k | p <= k < (if i < |lines| then lines[i] else |g|) && k < |g|
      ensures !IsFull(g[k])
    {
      assert k !in lines;
    }
  }

  /** The processed top rows hold exactly the first `i` listed rows. */
  lemma {:induction false} StageCount(g: Grid, lines: seq<nat>, i: nat)
    requires FullRowIndex(g, lines) && i <= |lines|
    ensures FullCount(g[..ClearedUpTo(g, lines, i)]) == i
  {
    if i > 0 {
      StageCount(g, lines, i - 1);
      SortedGap(g, lines, i - 1);
      KeptGap(g, ClearedUpTo(g, lines, i - 1), lines[i - 1]);
      KeptFullRow(g, lines[i - 1]);
    }
  }

  /** Deleting a full row `y` that follows a stretch of non-full rows, from
      a board whose rows above the stretch are already cleared, clears the
      board down to `y`. */
  lemma DeleteFullRow(g: Grid, i: nat, p: nat, y: nat)
    requires p <= y < |g| && IsFull(g[y])
    requires forall k :: p <= k < y ==> !IsFull(g[k])
    requires FullCount(g[..p]) == i
    ensures |BlankRows(i) + Kept(g[..p]) + g[p..]| == |g|
    ensures DeleteInsert(BlankRows(i) + Kept(g[..p]) + g[p..], y)
         == BlankRows(i + 1) + Kept(g[..y + 1]) + g[y + 1..]
  {
    KeptGap(g, p, y);
    KeptFullRow(g, y);
    KeptCount(g[..p]);
    var top := BlankRows(i) + Kept(g[..p]);
    var before := top + g[p..];
    assert |top| == p;
    assert before[..y] == top + g[p..y];
    assert before[y + 1..] == g[y + 1..];
    assert [Blank(Width)] + BlankRows(i) == BlankRows(i + 1);
  }

  /** One step of clearing: removing the next full row and putting a blank
      row on top moves the board from one stage to the next. */
  lemma ClearStep(g: Grid, lines: seq<nat>, i: nat)
    requires lines == FullRows(g) && i < |lines|
    ensures lines[i] < |g| == |Stage(g, lines, i)|
    ensures DeleteInsert(Stage(g, lines, i), lines[i]) == Stage(g, lines, i + 1)
  {
    var p := ClearedUpTo(g, lines, i);
    var y := lines[i];
    assert p <= y < |g| && IsFull(g[y]) && (forall k :: p <= k < y ==> !IsFull(g[k]))
      && FullCount(g[..p]) == i && ClearedUpTo(g, lines, i + 1) == y + 1 by {
      FullRowsIndex(g);
      StageCount(g, lines, i);
      SortedGap(g, lines, i);
    }
    DeleteFullRow(g, i, p, y);
  }

  /** Before any row is removed the stage is the board itself. */
  lemma StageStart(g: Grid, lines: seq<nat>)
    ensures Stage(g, lines, 0) == g
  {
    assert Stage(g, lines, 0) == [] + [] + g;
  }

  /** Once every full row is removed the stage is the cleared board. */
  lemma StageEnd(g: Grid, lines: seq<nat>)
    requires lines == FullRows(g)
    ensures Stage(g, lines, |lines|) == Cleared(g)
  {
    FullRowsIndex(g);
    var p := ClearedUpTo(g, lines, |lines|);
    StageCount(g, lines, |lines|);
    SortedGap(g, lines, |lines|);
    KeptGap(g, p, |g|);
    assert g[..|g|] == g && g[p..|g|] == g[p..];
  }

  /** A board with no full row keeps all its rows. */
  lemma {:induction false} KeptAll(g: Grid)
    requires FullCount(g) == 0
    ensures Kept(g) == g
  {
    if g != [] {
      KeptAll(g[..|g| - 1]);
    }
  }

  /** Clearing keeps the board's shape: as many rows as before, each still
      `Width` cells wide. */
  lemma ClearedShape(g: Grid)
    ensures |Cleared(g)| == |g|
    ensures RowsOfWidth(g) ==> RowsOfWidth(Cleared(g))
  {
    KeptCount(g);
    KeptRows(g);
    var c := Cleared(g);
    var k := FullCount(g);
    if RowsOfWidth(g) {
      forall y | 0 <= y < |c|
        ensures |c[y]| == Width
      {
        if y >= k {
          assert c[y] == Kept(g)[y - k];
          assert c[y] in Kept(g);
        }
      }
    }
  }

  /** No full row survives clearing. */
  lemma ClearedNoFullRow(g: Grid)
    ensures forall y :: 0 <= y < |Cleared(g)| ==> !IsFull(Cleared(g)[y])
  {
    KeptRows(g);
    var c := Cleared(g);
    var k := FullCount(g);
    forall y | 0 <= y < |c|
      ensures !IsFull(c[y])
    {
      if y < k {
        assert c[y][0] == 0;
      } else {
        assert c[y] == Kept(g)[y - k];
        assert c[y] in Kept(g);
      }
    }
  }

  /** Clearing changes nothing exactly when no row is full. */
  lemma ClearedUnchangedIff(g: Grid)
    ensures Cleared(g) == g <==> FullCount(g) == 0
  {
    if FullCount(g) == 0 {
      KeptAll(g);
      assert Cleared(g) == [] + Kept(g);
    }
    if Cleared(g) == g {
      ClearedNoFullRow(g);
      NoFullRowCount(g);
    }
  }

  /** A board whose rows are all non-full has a zero full-row count. */
  lemma {:induction false} NoFullRowCount(g: Grid)
    requires forall y :: 0 <= y < |g| ==> !IsFull(g[y])
    ensures FullCount(g) == 0
  {
    if g != [] {
      NoFullRowCount(g[..|g| - 1]);
    }
  }

  /** Clearing twice is clearing once, and the second clear finds no full row
      (so it awards no points). */
  lemma ClearedIdempotent(g: Grid)
    ensures FullCount(Cleared(g)) == 0
    ensures Cleared(Cleared(g)) == Cleared(g)
  {
    ClearedNoFullRow(g);
    NoFullRowCount(Cleared(g));
    ClearedUnchangedIff(Cleared(g));
  }

  /** After a clear that removed at least one row, the top row is empty. */
  lemma ClearedTopRowEmpty(g: Grid)
    requires FullCount(g) > 0
    ensures !Occupied(Cleared(g)[0])
  {
    assert Cleared(g)[0] == Blank(Width);
  }

  /** The shape `new_piece` returns for a given draw; its
      `random.choice` becomes the draw index parameter. */
  function NewPiece(draw: nat): (shape: char)
    requires draw < |Shapes|
    ensures shape in Shapes
  {
    Shapes[draw]
  }

  /** What `check_game_over` returns as written: row 0 occupied
      returns true, otherwise it evaluates the undefined name `Falsei`. */
  datatype GameOverReturn = Returned(value: bool) | NameError(name: string)

  function CheckGameOverAsWritten(topRow: Row): (r: GameOverReturn)
    ensures r.Returned? <==> Occupied(topRow)
    ensures r.Returned? ==> r.value
  {
    if Occupied(topRow) then Returned(true) else NameError("Falsei")
  }

  /** On a fresh board the check as written raises instead of answering false. */
  lemma AsWrittenRaisesOnEmptyTop()
    ensures CheckGameOverAsWritten(Blank(Width)) == NameError("Falsei")
  {
    assert !Occupied(Blank(Width));
  }

  // ---------------------------------------------------------------------
  // The game object
  // ---------------------------------------------------------------------

  class TetrisGame {
    var board: array<Row>
    var score: int
    var gameOver: bool

    /** The board has `Height` rows of `Width` cells. */
    ghost predicate Valid()
      reads this, board
    {
      board.Length == Height && RowsOfWidth(board[..])
    }

    constructor ()
      ensures Valid() && fresh(board)
      ensures forall y :: 0 <= y < Height ==> board[y] == Blank(Width)
      ensures score == 0 && !gameOver
    {
      board := new Row[Height](_ => Blank(Width));
      score := 0;
      gameOver := false;
    }

    /** The indices of the full rows, top to bottom. */
    method FullLines() returns (lines: seq<nat>)
      ensures lines == FullRows(board[..])
    {
      lines := [];
      var y := 0;
      while y < board.Length
        invariant 0 <= y <= board.Length
        invariant lines == FullRows(board[..y])
      {
        assert board[..y + 1][..y] == board[..y];
        if IsFull(board[y]) {
          lines := lines + [y];
        }
        y := y + 1;
      }
      assert board[..y] == board[..];
    }

    /** Removes row `y` and puts a blank row on top; the rows above `y` move
        down by one. */
    method DeleteRowInsertTop(y: nat)
      requires y < board.Length
      modifies board
      ensures board[..] == DeleteInsert(old(board[..]), y)
    {
      var j := y;
      while j > 0
        invariant 0 <= j <= y
        invariant forall k :: 0 <= k <= j ==> board[k] == old(board[k])
        invariant forall k :: j < k <= y ==> board[k] == old(board[k - 1])
        invariant forall k :: y < k < board.Length ==> board[k] == old(board[k])
      {
        board[j] := board[j - 1];
        j := j - 1;
      }
      board[0] := Blank(Width);
      assert forall k :: 0 < k <= y ==> board[k] == old(board[k - 1]);
    }

    /** Removes the listed rows, top to bottom, each time putting a blank row
        on top; `lines` lists exactly the full rows, in increasing order. */
    method ClearRows(lines: seq<nat>)
      requires lines == FullRows(board[..])
      modifies board
      ensures board[..] == Cleared(old(board[..]))
    {
      ghost var g := board[..];
      StageStart(g, lines);
      var i := 0;
      while i < |lines|
        invariant 0 <= i <= |lines|
        invariant board[..] == Stage(g, lines, i)
      {
        ClearStep(g, lines, i);
        DeleteRowInsertTop(lines[i]);
        i := i + 1;
      }
      StageEnd(g, lines);
    }

    /** Clears every full row and scores `PointsPerLine` for each. */
    method CheckLines()
      requires Valid()
      modifies board, this`score
      ensures Valid()
      ensures board[..] == Cleared(old(board[..]))
      ensures score == old(score) + PointsPerLine * FullCount(old(board[..]))
      ensures gameOver == old(gameOver)
    {
      ghost var g := board[..];
      var linesToClear := FullLines();
      FullRowsIndex(g);
      if |linesToClear| > 0 {
        ClearRows(linesToClear);
        score := score + |linesToClear| * PointsPerLine;
      } else {
        ClearedUnchangedIff(g);
      }
      ClearedShape(g);
    }

    /** True when row 0 is occupied; then the game is over. */
    method CheckGameOver() returns (over: bool)
      requires Valid()
      modifies this`gameOver
      ensures over == Occupied(board[0])
      ensures gameOver == (old(gameOver) || over)
      ensures board[..] == old(board[..]) && score == old(score)
    {
      if Occupied(board[0]) {
        gameOver := true;
        return true;
      }
      return false;
    }
  }
}
