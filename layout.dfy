/** What the board's grid looks like after each phase: mine placement from a
    stream of random positions, adjacent-mine annotation, the loss reveal,
    and the invariants flood-fill keeps. */
module Layout {
  import opened Cells
  import opened Grids

  // ---------------------------------------------------------------------
  // Mine placement by rejection sampling

  /** The distinct positions of draws other than avoid. */
  function SafeDraws(draws: seq<Pos>, avoid: Pos): set<Pos>
  {
    if draws == [] then {}
    else (if draws[0] != avoid then {draws[0]} else {}) + SafeDraws(draws[1..], avoid)
  }

  /** The mines chosen by the placement loop: each draw is rejected when it is
      the avoided position or already a mine, until n mines are chosen or the
      draws run out. */
  function SampleFrom(draws: seq<Pos>, avoid: Pos, n: nat, mines: set<Pos>): set<Pos>
  {
    if |mines| >= n || draws == [] then mines
    else if draws[0] == avoid || draws[0] in mines then SampleFrom(draws[1..], avoid, n, mines)
    else SampleFrom(draws[1..], avoid, n, mines + {draws[0]})
  }

  function Sample(draws: seq<Pos>, avoid: Pos, n: nat): set<Pos>
  {
    SampleFrom(draws, avoid, n, {})
  }

  /** One draw consumed: the mines still reachable do not change. */
  lemma SafeDrawsStep(draws: seq<Pos>, avoid: Pos, mines: set<Pos>)
    requires draws != [] && avoid !in mines
    ensures var d := draws[0];
      var next := if d == avoid || d in mines then mines else mines + {d};
      next + SafeDraws(draws[1..], avoid) == mines + SafeDraws(draws, avoid)
  {
  }

  lemma {:induction false} SampleFromExact(draws: seq<Pos>, avoid: Pos, n: nat, mines: set<Pos>)
    requires |mines| <= n && avoid !in mines
    requires n <= |mines + SafeDraws(draws, avoid)|
    ensures var s := SampleFrom(draws, avoid, n, mines);
      |s| == n && avoid !in s && mines <= s && s <= mines + SafeDraws(draws, avoid)
  {
    if |mines| < n {
      if draws == [] {
        assert false;
      } else {
        var d := draws[0];
        var next := if d == avoid || d in mines then mines else mines + {d};
        SafeDrawsStep(draws, avoid, mines);
        SampleFromExact(draws[1..], avoid, n, next);
      }
    }
  }

  /** While fewer than n mines are chosen but the placement goes on to
      choose n, there is a draw left to take. */
  lemma DrawsLeft(draws: seq<Pos>, i: int, avoid: Pos, n: nat, mines: set<Pos>)
    requires 0 <= i <= |draws| && |mines| < n == |SampleFrom(draws[i..], avoid, n, mines)|
    ensures i < |draws|
  {
    assert draws[i..] != [];
  }

  /** Taking draw i, with next the chosen set afterwards: it grows exactly
      when the draw is neither the avoided position nor already chosen, and
      the rest of the placement carries on from next. */
  lemma SampleStep(draws: seq<Pos>, i: int, avoid: Pos, n: nat, mines: set<Pos>, next: set<Pos>)
    requires 0 <= i < |draws| && |mines| < n && avoid !in mines
    requires next == if draws[i] == avoid || draws[i] in mines then mines else mines + {draws[i]}
    ensures SampleFrom(draws[i..], avoid, n, mines) == SampleFrom(draws[i + 1..], avoid, n, next)
    ensures avoid !in next && |next| == |mines| + (if next == mines then 0 else 1)
  {
    assert draws[i..][0] == draws[i] && draws[i..][1..] == draws[i + 1..];
    if next != mines {
      AddFresh(mines, draws[i]);
    }
  }

  /** When the draws hold at least n distinct positions other than avoid,
      placement picks exactly n mines, all of them drawn, none at avoid. */
  lemma SampleExact(draws: seq<Pos>, avoid: Pos, n: nat)
    requires n <= |SafeDraws(draws, avoid)|
    ensures |Sample(draws, avoid, n)| == n
    ensures avoid !in Sample(draws, avoid, n)
    ensures Sample(draws, avoid, n) <= SafeDraws(draws, avoid)
  {
    assert {} + SafeDraws(draws, avoid) == SafeDraws(draws, avoid);
    SampleFromExact(draws, avoid, n, {});
  }

  lemma {:induction false} SafeDrawsMembers(draws: seq<Pos>, avoid: Pos, p: Pos)
    ensures p in SafeDraws(draws, avoid) <==> p in draws && p != avoid
  {
    if draws != [] {
      SafeDrawsMembers(draws[1..], avoid, p);
      assert draws == [draws[0]] + draws[1..];
    }
  }

  /** The grid with a mine set on every position of mines, built row by
      row. */
  function Lay(g: seq<seq<Cell>>, mines: set<Pos>): (h: seq<seq<Cell>>)
    ensures |h| == |g| && forall r :: 0 <= r < |g| ==> |h[r]| == |g[r]|
    decreases |g|
  {
    if g == [] then []
    else
      var r := |g| - 1;
      Lay(g[..r], mines) +
      [seq(|g[r]|, c requires 0 <= c < |g[r]| => if (r, c) in mines then g[r][c].SetMine() else g[r][c])]
  }

  /** Lay keeps the shape and sets a mine exactly on the chosen positions. */
  lemma {:induction false} LayCells(g: seq<seq<Cell>>, mines: set<Pos>)
    ensures var h := Lay(g, mines);
      |h| == |g| && (forall r :: 0 <= r < |g| ==> |h[r]| == |g[r]|) &&
      forall r, c :: 0 <= r < |g| && 0 <= c < |g[r]| ==>
        h[r][c] == if (r, c) in mines then g[r][c].SetMine() else g[r][c]
  {
    if g != [] {
      LayCells(g[..|g| - 1], mines);
    }
  }

  lemma AddFresh(s: set<Pos>, x: Pos)
    requires x !in s
    ensures |s + {x}| == |s| + 1
  {
  }

  /** On a mine-free grid, the cell at p of Lay(g, mines) is a mine exactly
      when p was chosen; choosing a fresh p sets that one cell and adds one to
      the mine count. */
  lemma LayStep(g: seq<seq<Cell>>, rows: nat, cols: nat, mines: set<Pos>, p: Pos)
    requires IsGrid(g, rows, cols) && Pristine(g) && InBounds(rows, cols, p)
    ensures var h := Lay(g, mines);
      (h[p.0][p.1].isMine <==> p in mines) &&
      (p !in mines ==>
        Lay(g, mines + {p}) == h[p.0 := h[p.0][p.1 := h[p.0][p.1].SetMine()]] &&
        CountGrid(Lay(g, mines + {p}), Mine) == CountGrid(h, Mine) + 1)
  {
    var h: seq<seq<Cell>> := Lay(g, mines);
    LayCells(g, mines);
    if p !in mines {
      LayAdd(g, rows, cols, mines, p);
      CountGridUpdate(h, p.0, p.1, h[p.0][p.1].SetMine(), Mine);
    }
  }

  /** Laying one more mine p changes only the cell at p. */
  lemma LayAdd(g: seq<seq<Cell>>, rows: nat, cols: nat, mines: set<Pos>, p: Pos)
    requires IsGrid(g, rows, cols) && InBounds(rows, cols, p) && p !in mines
    ensures var h := Lay(g, mines);
      Lay(g, mines + {p}) == h[p.0 := h[p.0][p.1 := h[p.0][p.1].SetMine()]]
  {
    var h: seq<seq<Cell>> := Lay(g, mines);
    var x: Cell := h[p.0][p.1].SetMine();
    LayCells(g, mines);
    LayCells(g, mines + {p});
    GridExt(Lay(g, mines + {p}), h[p.0 := h[p.0][p.1 := x]], rows, cols);
  }

  // ---------------------------------------------------------------------
  // Adjacent-mine counts

  predicate MineAt(g: seq<seq<Cell>>, p: Pos) {
    0 <= p.0 < |g| && 0 <= p.1 < |g[p.0]| && g[p.0][p.1].isMine
  }

  /** How many of the positions ps hold a mine. */
  function MinesAmong(g: seq<seq<Cell>>, ps: seq<Pos>): (n: nat)
    ensures n <= |ps|
  {
    if ps == [] then 0
    else MinesAmong(g, ps[..|ps| - 1]) + (if MineAt(g, ps[|ps| - 1]) then 1 else 0)
  }

  /** The number of mines around (row, col). */
  function NeighborMines(g: seq<seq<Cell>>, rows: int, cols: int, row: int, col: int): nat
  {
    MinesAmong(g, Neighbors(rows, cols, row, col))
  }

  /** A cell never has more than eight mines around it. */
  lemma NeighborMinesBound(g: seq<seq<Cell>>, rows: int, cols: int, row: int, col: int)
    ensures 0 <= NeighborMines(g, rows, cols, row, col) <= 8
  {
    NeighborsExactly(rows, cols, row, col);
  }

  /** g1 and g2 have the same shape and the same mines. */
  ghost predicate SameMines(g1: seq<seq<Cell>>, g2: seq<seq<Cell>>, rows: nat, cols: nat) {
    IsGrid(g1, rows, cols) && IsGrid(g2, rows, cols) &&
    forall r, c :: 0 <= r < rows && 0 <= c < cols ==> g1[r][c].isMine == g2[r][c].isMine
  }

  lemma {:induction false} MinesAmongSame(g1: seq<seq<Cell>>, g2: seq<seq<Cell>>, rows: nat, cols: nat, ps: seq<Pos>)
    requires SameMines(g1, g2, rows, cols)
    ensures MinesAmong(g1, ps) == MinesAmong(g2, ps)
  {
    if ps != [] {
      MinesAmongSame(g1, g2, rows, cols, ps[..|ps| - 1]);
    }
  }

  /** Adjacent-mine counts depend on nothing but where the mines are. */
  lemma NeighborMinesSame(g1: seq<seq<Cell>>, g2: seq<seq<Cell>>, rows: nat, cols: nat)
    requires SameMines(g1, g2, rows, cols)
    ensures forall r, c :: NeighborMines(g1, rows, cols, r, c) == NeighborMines(g2, rows, cols, r, c)
  {
    forall r, c ensures NeighborMines(g1, rows, cols, r, c) == NeighborMines(g2, rows, cols, r, c) {
      MinesAmongSame(g1, g2, rows, cols, Neighbors(rows, cols, r, c));
    }
  }

  /** Every non-mine cell holds the number of mines around it. */
  ghost predicate MinesCounted(g: seq<seq<Cell>>, rows: nat, cols: nat)
    requires IsGrid(g, rows, cols)
  {
    forall r, c {:trigger NeighborMines(g, rows, cols, r, c)} ::
      0 <= r < rows && 0 <= c < cols && !g[r][c].isMine ==>
      g[r][c].adjacentMines == NeighborMines(g, rows, cols, r, c)
  }

  /** The grid after the adjacent-mine pass: each non-mine cell gets the
      number of mines around it; mine cells keep their count. */
  function Annotate(g: seq<seq<Cell>>, rows: nat, cols: nat): (h: seq<seq<Cell>>)
    ensures |h| == |g| && forall r :: 0 <= r < |g| ==> |h[r]| == |g[r]|
  {
    AnnotateRows(g, rows, cols, |g|)
  }

  /** The first k rows of Annotate(g, rows, cols). */
  function AnnotateRows(g: seq<seq<Cell>>, rows: nat, cols: nat, k: nat): (h: seq<seq<Cell>>)
    requires k <= |g|
    ensures |h| == k && forall r :: 0 <= r < k ==> |h[r]| == |g[r]|
  {
    if k == 0 then []
    else
      var r := k - 1;
      AnnotateRows(g, rows, cols, r) +
      [seq(|g[r]|, c requires 0 <= c < |g[r]| =>
        if g[r][c].isMine then g[r][c]
        else g[r][c].(adjacentMines := NeighborMines(g, rows, cols, r, c)))]
  }

  lemma {:induction false} AnnotateRowsCells(g: seq<seq<Cell>>, rows: nat, cols: nat, k: nat)
    requires k <= |g|
    ensures var h := AnnotateRows(g, rows, cols, k);
      |h| == k && (forall r :: 0 <= r < k ==> |h[r]| == |g[r]|) &&
      forall r, c :: 0 <= r < k && 0 <= c < |g[r]| ==>
        h[r][c] == if g[r][c].isMine then g[r][c]
                   else g[r][c].(adjacentMines := NeighborMines(g, rows, cols, r, c))
  {
    if k != 0 {
      AnnotateRowsCells(g, rows, cols, k - 1);
    }
  }

  /** Annotate keeps the shape and changes only the counts of non-mine cells. */
  lemma AnnotateCells(g: seq<seq<Cell>>, rows: nat, cols: nat)
    ensures var h := Annotate(g, rows, cols);
      |h| == |g| && (forall r :: 0 <= r < |g| ==> |h[r]| == |g[r]|) &&
      forall r, c :: 0 <= r < |g| && 0 <= c < |g[r]| ==>
        h[r][c] == if g[r][c].isMine then g[r][c]
                   else g[r][c].(adjacentMines := NeighborMines(g, rows, cols, r, c))
  {
    AnnotateRowsCells(g, rows, cols, |g|);
  }

  /** After the pass every non-mine cell's count is right and lies in 0..8,
      and only counts changed. */
  lemma AnnotateCounts(g: seq<seq<Cell>>, rows: nat, cols: nat)
    requires IsGrid(g, rows, cols)
    ensures var h := Annotate(g, rows, cols);
      SameMines(g, h, rows, cols) && MinesCounted(h, rows, cols) &&
      CountGrid(h, Mine) == CountGrid(g, Mine) &&
      forall r, c :: 0 <= r < rows && 0 <= c < cols && !h[r][c].isMine ==> 0 <= h[r][c].adjacentMines <= 8
  {
    var h := Annotate(g, rows, cols);
    AnnotateCells(g, rows, cols);
    NeighborMinesSame(g, h, rows, cols);
    CountGridSame(g, h, Mine);
    forall r, c | 0 <= r < rows && 0 <= c < cols
      ensures !h[r][c].isMine ==> 0 <= h[r][c].adjacentMines <= 8
    {
      NeighborMinesBound(g, rows, cols, r, c);
    }
  }

  /** No mine, nothing revealed, every count zero: the grid before the first
      reveal (flags may already be set). */
  ghost predicate Pristine(g: seq<seq<Cell>>) {
    forall r, c :: 0 <= r < |g| && 0 <= c < |g[r]| ==>
      !g[r][c].isMine && !g[r][c].isRevealed && g[r][c].adjacentMines == 0
  }

  /** The grid once the first reveal at avoid has placed n mines from draws
      and annotated the counts. */
  function Armed(g: seq<seq<Cell>>, rows: nat, cols: nat, avoid: Pos, draws: seq<Pos>, n: nat): seq<seq<Cell>>
  {
    Annotate(Lay(g, Sample(draws, avoid, n)), rows, cols)
  }

  /** The armed grid has the board's shape, every count right, and no mine
      at the avoided cell. */
  lemma ArmedCounted(g: seq<seq<Cell>>, rows: nat, cols: nat, avoid: Pos, draws: seq<Pos>, n: nat)
    requires IsGrid(g, rows, cols) && Pristine(g)
    requires n <= |SafeDraws(draws, avoid)|
    ensures var h := Armed(g, rows, cols, avoid, draws, n);
      IsGrid(h, rows, cols) && MinesCounted(h, rows, cols) &&
      (InBounds(rows, cols, avoid) ==> !h[avoid.0][avoid.1].isMine)
  {
    var mines := Sample(draws, avoid, n);
    var l := Lay(g, mines);
    SampleExact(draws, avoid, n);
    LayCells(g, mines);
    AnnotateCells(l, rows, cols);
    AnnotateCounts(l, rows, cols);
  }

  /** The armed grid: mines exactly at the sampled positions, flags and
      reveals untouched. */
  lemma ArmedLayout(g: seq<seq<Cell>>, rows: nat, cols: nat, avoid: Pos, draws: seq<Pos>, n: nat)
    requires IsGrid(g, rows, cols) && Pristine(g)
    ensures var h := Armed(g, rows, cols, avoid, draws, n);
      forall r, c :: 0 <= r < rows && 0 <= c < cols ==>
        (h[r][c].isMine <==> (r, c) in Sample(draws, avoid, n)) &&
        h[r][c].isFlagged == g[r][c].isFlagged && !h[r][c].isRevealed &&
        h[r][c].row == g[r][c].row && h[r][c].col == g[r][c].col
  {
    var mines := Sample(draws, avoid, n);
    var l := Lay(g, mines);
    LayCells(g, mines);
    AnnotateCells(l, rows, cols);
  }

  // ---------------------------------------------------------------------
  // Loss: every mine is shown

  function Exposed(c: Cell): Cell {
    if c.isMine then c.(isRevealed := true) else c
  }

  /** The grid after a loss: every mine revealed, flagged or not. */
  function RevealMines(g: seq<seq<Cell>>): (h: seq<seq<Cell>>)
    ensures |h| == |g| && forall r :: 0 <= r < |g| ==> |h[r]| == |g[r]|
  {
    seq(|g|, r requires 0 <= r < |g| => seq(|g[r]|, c requires 0 <= c < |g[r]| => Exposed(g[r][c])))
  }

  /** After a loss every mine is revealed, each mine keeps its flag, and
      non-mine cells are exactly as before. */
  lemma RevealMinesEffect(g: seq<seq<Cell>>, r: int, c: int)
    requires 0 <= r < |g| && 0 <= c < |g[r]|
    ensures var h := RevealMines(g);
      (g[r][c].isMine ==> h[r][c].isRevealed && h[r][c].isFlagged == g[r][c].isFlagged) &&
      (!g[r][c].isMine ==> h[r][c] == g[r][c]) &&
      h[r][c].(isRevealed := g[r][c].isRevealed) == g[r][c]
  {
  }

  // ---------------------------------------------------------------------
  // Win condition

  /** The number of revealed non-mine cells reaches rows * cols minus the
      number of mines exactly when every non-mine cell is revealed. */
  lemma AllSafeRevealed(g: seq<seq<Cell>>, rows: nat, cols: nat)
    requires IsGrid(g, rows, cols)
    ensures CountGrid(g, RevealedSafe) <= rows * cols - CountGrid(g, Mine)
    ensures CountGrid(g, RevealedSafe) == rows * cols - CountGrid(g, Mine) <==>
      forall r, c :: 0 <= r < rows && 0 <= c < cols && !g[r][c].isMine ==> g[r][c].isRevealed
  {
    CountGridAll(g, rows, cols);
    CountGridSplit(g, Mine, Safe, Any);
    CountGridMono(g, g, RevealedSafe, Safe);
    if CountGrid(g, RevealedSafe) == CountGrid(g, Safe) {
      CountGridFull(g, g, RevealedSafe, Safe);
      forall r, c | 0 <= r < rows && 0 <= c < cols && !g[r][c].isMine
        ensures g[r][c].isRevealed
      {
        assert Ind(g[r][c], RevealedSafe) == Ind(g[r][c], Safe);
      }
    }
    if forall r, c :: 0 <= r < rows && 0 <= c < cols && !g[r][c].isMine ==> g[r][c].isRevealed {
      CountGridMono(g, g, Safe, RevealedSafe);
    }
  }

  // ---------------------------------------------------------------------
  // Flood-fill

  /** b is a, or a revealed where a was hidden, unflagged and safe. */
  predicate FloodStep(a: Cell, b: Cell) {
    b == a || (!a.isRevealed && !a.isFlagged && !a.isMine && b == a.(isRevealed := true))
  }

  /** g2 comes from g1 by flood-fill reveals only. */
  ghost predicate FloodGrows(g1: seq<seq<Cell>>, g2: seq<seq<Cell>>, rows: nat, cols: nat) {
    IsGrid(g1, rows, cols) && IsGrid(g2, rows, cols) &&
    forall r, c :: 0 <= r < rows && 0 <= c < cols ==> FloodStep(g1[r][c], g2[r][c])
  }

  /** Flood-fill will not go into q: it is off the grid, revealed, flagged or a mine. */
  predicate Settled(g: seq<seq<Cell>>, q: Pos) {
    0 <= q.0 < |g| && 0 <= q.1 < |g[q.0]| &&
    (g[q.0][q.1].isRevealed || g[q.0][q.1].isFlagged || g[q.0][q.1].isMine)
  }

  /** Every neighbour of (row, col) is settled. */
  ghost predicate Closed(g: seq<seq<Cell>>, rows: nat, cols: nat, row: int, col: int) {
    forall q :: q in Neighbors(rows, cols, row, col) ==> Settled(g, q)
  }

  /** Every zero-count cell revealed on the way from g1 to g2 is closed in g2. */
  ghost predicate NewZerosClosed(g1: seq<seq<Cell>>, g2: seq<seq<Cell>>, rows: nat, cols: nat)
    requires IsGrid(g1, rows, cols) && IsGrid(g2, rows, cols)
  {
    forall r, c ::
      (0 <= r < rows && 0 <= c < cols &&
       !g1[r][c].isRevealed && g2[r][c].isRevealed && g2[r][c].adjacentMines == 0) ==>
      Closed(g2, rows, cols, r, c)
  }

  lemma FloodGrowsTrans(g1: seq<seq<Cell>>, g2: seq<seq<Cell>>, g3: seq<seq<Cell>>, rows: nat, cols: nat)
    requires FloodGrows(g1, g2, rows, cols) && FloodGrows(g2, g3, rows, cols)
    ensures FloodGrows(g1, g3, rows, cols)
  {
  }

  /** Settled positions stay settled as flood-fill proceeds. */
  lemma ClosedGrows(g1: seq<seq<Cell>>, g2: seq<seq<Cell>>, rows: nat, cols: nat, row: int, col: int)
    requires FloodGrows(g1, g2, rows, cols) && Closed(g1, rows, cols, row, col)
    ensures Closed(g2, rows, cols, row, col)
  {
    NeighborsExactly(rows, cols, row, col);
  }

  /** g1 and g2 differ at most in which cells are revealed or flagged. */
  ghost predicate SameLayout(g1: seq<seq<Cell>>, g2: seq<seq<Cell>>, rows: nat, cols: nat) {
    IsGrid(g1, rows, cols) && IsGrid(g2, rows, cols) &&
    forall r, c :: 0 <= r < rows && 0 <= c < cols ==>
      g2[r][c] == g1[r][c].(isRevealed := g2[r][c].isRevealed, isFlagged := g2[r][c].isFlagged)
  }

  /** Revealing and flagging keep the labels, the mine count and the
      adjacent-mine counts. */
  lemma SameLayoutKeeps(g1: seq<seq<Cell>>, g2: seq<seq<Cell>>, rows: nat, cols: nat)
    requires SameLayout(g1, g2, rows, cols)
    ensures Labelled(g1) ==> Labelled(g2)
    ensures CountGrid(g2, Mine) == CountGrid(g1, Mine)
    ensures MinesCounted(g1, rows, cols) ==> MinesCounted(g2, rows, cols)
  {
    CountGridSame(g1, g2, Mine);
    assert SameMines(g1, g2, rows, cols);
    NeighborMinesSame(g1, g2, rows, cols);
  }

  /** Flood-fill reveals only hidden cells, so the hidden count never grows. */
  lemma FloodGrowsHidden(g1: seq<seq<Cell>>, g2: seq<seq<Cell>>, rows: nat, cols: nat)
    requires FloodGrows(g1, g2, rows, cols)
    ensures SameLayout(g1, g2, rows, cols)
    ensures CountGrid(g2, Hidden) <= CountGrid(g1, Hidden)
  {
    CountGridMono(g2, g1, Hidden, Hidden);
  }

  /** A position settled before flood-fill continues stays settled. */
  lemma SettledGrows(g1: seq<seq<Cell>>, g2: seq<seq<Cell>>, rows: nat, cols: nat, q: Pos)
    requires FloodGrows(g1, g2, rows, cols) && Settled(g1, q)
    ensures Settled(g2, q)
  {
    assert FloodStep(g1[q.0][q.1], g2[q.0][q.1]);
  }

  /** Two flood-fill stretches in a row close every zero-count cell either
      of them revealed. */
  lemma NewZerosCompose(g0: seq<seq<Cell>>, g1: seq<seq<Cell>>, g2: seq<seq<Cell>>, rows: nat, cols: nat)
    requires FloodGrows(g0, g1, rows, cols) && FloodGrows(g1, g2, rows, cols)
    requires NewZerosClosed(g0, g1, rows, cols) && NewZerosClosed(g1, g2, rows, cols)
    ensures NewZerosClosed(g0, g2, rows, cols)
  {
    forall r, c | 0 <= r < rows && 0 <= c < cols &&
      !g0[r][c].isRevealed && g2[r][c].isRevealed && g2[r][c].adjacentMines == 0
      ensures Closed(g2, rows, cols, r, c)
    {
      assert FloodStep(g1[r][c], g2[r][c]);
      if g1[r][c].isRevealed {
        ClosedGrows(g1, g2, rows, cols, r, c);
      }
    }
  }

  /** Revealing q and then flooding from it (when its count is zero) closes
      every zero-count cell revealed on the way. */
  lemma RevealThenFlood(g1: seq<seq<Cell>>, g2: seq<seq<Cell>>, g3: seq<seq<Cell>>, rows: nat, cols: nat, q: Pos)
    requires FloodGrows(g1, g2, rows, cols) && FloodGrows(g2, g3, rows, cols)
    requires forall r, c :: 0 <= r < rows && 0 <= c < cols && (r, c) != q ==> g2[r][c] == g1[r][c]
    requires InBounds(rows, cols, q)
    requires g2[q.0][q.1].adjacentMines == 0 ==>
      Closed(g3, rows, cols, q.0, q.1) && NewZerosClosed(g2, g3, rows, cols)
    requires g2[q.0][q.1].adjacentMines != 0 ==> g3 == g2
    ensures NewZerosClosed(g1, g3, rows, cols)
  {
    forall r, c | 0 <= r < rows && 0 <= c < cols &&
      !g1[r][c].isRevealed && g3[r][c].isRevealed && g3[r][c].adjacentMines == 0
      ensures Closed(g3, rows, cols, r, c)
    {
      assert FloodStep(g2[r][c], g3[r][c]);
      if g2[q.0][q.1].adjacentMines == 0 {
        if (r, c) != q {
          assert !g2[r][c].isRevealed;
        }
      }
    }
  }

  /** g with the cell at q revealed. */
  function RevealAt(g: seq<seq<Cell>>, q: Pos): seq<seq<Cell>>
    requires 0 <= q.0 < |g| && 0 <= q.1 < |g[q.0]|
  {
    g[q.0 := g[q.0][q.1 := g[q.0][q.1].(isRevealed := true)]]
  }

  /** Flood-fill revealing one more hidden, unflagged, safe cell q: a flood
      step that keeps the layout and hides one cell fewer. */
  lemma RevealOne(g0: seq<seq<Cell>>, g1: seq<seq<Cell>>, rows: nat, cols: nat, q: Pos)
    requires FloodGrows(g0, g1, rows, cols) && InBounds(rows, cols, q)
    requires var x := g1[q.0][q.1]; !x.isRevealed && !x.isFlagged && !x.isMine
    ensures var g2 := RevealAt(g1, q);
      FloodGrows(g1, g2, rows, cols) && FloodGrows(g0, g2, rows, cols) &&
      SameLayout(g1, g2, rows, cols) &&
      CountGrid(g2, Hidden) < CountGrid(g0, Hidden)
  {
    var g2 := RevealAt(g1, q);
    FloodGrowsHidden(g0, g1, rows, cols);
    CountGridUpdate(g1, q.0, q.1, g1[q.0][q.1].(isRevealed := true), Hidden);
    assert FloodGrows(g1, g2, rows, cols);
    assert SameLayout(g1, g2, rows, cols);
    FloodGrowsTrans(g0, g1, g2, rows, cols);
  }

  /** One neighbour q handled by flood-fill: revealed (g1 to g2) and, when
      it has no mine around it, flooded from (g2 to g3). Everything settled
      stays settled, q is now settled, and every zero-count cell revealed
      since g0 is closed. */
  lemma NeighborDone(g0: seq<seq<Cell>>, g1: seq<seq<Cell>>, g3: seq<seq<Cell>>,
                     rows: nat, cols: nat, q: Pos, done: seq<Pos>)
    requires FloodGrows(g0, g1, rows, cols) && NewZerosClosed(g0, g1, rows, cols)
    requires forall p :: p in done ==> Settled(g1, p)
    requires InBounds(rows, cols, q)
    requires var x := g1[q.0][q.1]; !x.isRevealed && !x.isFlagged && !x.isMine
    requires FloodGrows(RevealAt(g1, q), g3, rows, cols)
    requires g1[q.0][q.1].adjacentMines == 0 ==>
      Closed(g3, rows, cols, q.0, q.1) && NewZerosClosed(RevealAt(g1, q), g3, rows, cols)
    requires g1[q.0][q.1].adjacentMines != 0 ==> g3 == RevealAt(g1, q)
    ensures FloodGrows(g0, g3, rows, cols) && NewZerosClosed(g0, g3, rows, cols)
    ensures forall p :: p in done + [q] ==> Settled(g3, p)
  {
    var g2 := RevealAt(g1, q);
    assert FloodGrows(g1, g2, rows, cols);
    RevealThenFlood(g1, g2, g3, rows, cols, q);
    FloodGrowsTrans(g1, g2, g3, rows, cols);
    NewZerosCompose(g0, g1, g3, rows, cols);
    FloodGrowsTrans(g0, g1, g3, rows, cols);
    forall p | p in done + [q] ensures Settled(g3, p) {
      if p in done {
        SettledGrows(g1, g3, rows, cols, p);
      } else {
        SettledGrows(g2, g3, rows, cols, q);
      }
    }
  }

  // ---------------------------------------------------------------------
  // The outcome of a reveal

  /** The outcome of revealing (row, col) on the grid start (mines already
      placed), leaving the grid g and the game flags over and won (which were
      over0 and won0), and returning safe:
      - a flagged or revealed cell: nothing changes and safe holds;
      - a mine: every mine is shown, the game is over and not won, and safe
        is false;
      - otherwise: the cell is revealed and safe holds; a cell with no mine
        around it is flooded from (only hidden, unflagged, safe cells are
        revealed, it and every zero-count cell revealed are closed); the
        game is won, and over, exactly when the revealed safe cells number
        rows * cols - mineCount, and otherwise both flags are kept. */
  ghost predicate RevealOutcome(start: seq<seq<Cell>>, g: seq<seq<Cell>>, rows: nat, cols: nat,
                                mineCount: nat, row: int, col: int, safe: bool,
                                over0: bool, won0: bool, over: bool, won: bool)
  {
    IsGrid(start, rows, cols) && InBounds(rows, cols, (row, col)) &&
    var t := start[row][col];
    (t.isFlagged || t.isRevealed ==>
      safe && g == start && over == over0 && won == won0) &&
    (!t.isFlagged && !t.isRevealed && t.isMine ==>
      !safe && g == RevealMines(start) && over && won == won0) &&
    (!t.isFlagged && !t.isRevealed && !t.isMine ==>
      safe && FloodGrows(start, g, rows, cols) && g[row][col].isRevealed &&
      (t.adjacentMines == 0 ==> Closed(g, rows, cols, row, col) && NewZerosClosed(start, g, rows, cols)) &&
      (t.adjacentMines != 0 ==> g == RevealAt(start, (row, col))) &&
      var wins := CountGrid(g, RevealedSafe) == rows * cols - mineCount;
      won == (won0 || wins) && over == (over0 || wins))
  }
}
