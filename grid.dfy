/** Pure facts about a rows x cols grid of cells: positions, the clipped
    8-neighbourhood, and counting cells that have a given trait. */
module Grids {
  import opened Cells

  type Pos = (int, int)

  predicate InBounds(rows: int, cols: int, p: Pos) {
    0 <= p.0 < rows && 0 <= p.1 < cols
  }

  /** g is a rows x cols rectangle. */
  ghost predicate IsGrid(g: seq<seq<Cell>>, rows: nat, cols: nat) {
    |g| == rows && forall r :: 0 <= r < rows ==> |g[r]| == cols
  }

  /** Every cell knows its own coordinates. */
  ghost predicate Labelled(g: seq<seq<Cell>>)
  {
    forall r, c :: 0 <= r < |g| && 0 <= c < |g[r]| ==> g[r][c].row == r && g[r][c].col == c
  }

  /** The grid the board starts with: every cell fresh. */
  function FreshGrid(rows: nat, cols: nat): (g: seq<seq<Cell>>)
    ensures IsGrid(g, rows, cols) && Labelled(g)
    ensures forall r, c :: 0 <= r < rows && 0 <= c < cols ==> g[r][c] == NewCell(r, c)
  {
    seq(rows, r => seq(cols, c => NewCell(r, c)))
  }

  /** Two grids of the same shape that agree cell by cell are equal. */
  lemma GridExt(g1: seq<seq<Cell>>, g2: seq<seq<Cell>>, rows: nat, cols: nat)
    requires IsGrid(g1, rows, cols) && IsGrid(g2, rows, cols)
    requires forall r, c :: 0 <= r < rows && 0 <= c < cols ==> g1[r][c] == g2[r][c]
    ensures g1 == g2
  {
    forall r | 0 <= r < rows ensures g1[r] == g2[r] {
      assert forall c :: 0 <= c < cols ==> g1[r][c] == g2[r][c];
    }
  }

  // ---------------------------------------------------------------------
  // Neighbourhood

  /** The eight unit offsets, in the order the board scans them. */
  const Directions: seq<Pos> :=
    [(-1, -1), (-1, 0), (-1, 1), (0, -1), (0, 1), (1, -1), (1, 0), (1, 1)]

  /** (row, col) shifted by each offset of ds that stays on the grid, in order. */
  function Clip(rows: int, cols: int, row: int, col: int, ds: seq<Pos>): seq<Pos>
  {
    if ds == [] then []
    else
      var d := ds[|ds| - 1];
      var p := (row + d.0, col + d.1);
      Clip(rows, cols, row, col, ds[..|ds| - 1]) + (if InBounds(rows, cols, p) then [p] else [])
  }

  /** The in-bounds neighbours of (row, col). */
  function Neighbors(rows: int, cols: int, row: int, col: int): seq<Pos>
  {
    Clip(rows, cols, row, col, Directions)
  }

  /** q touches p: a different position at most one step away in each axis. */
  predicate Adjacent(p: Pos, q: Pos) {
    q != p && -1 <= q.0 - p.0 <= 1 && -1 <= q.1 - p.1 <= 1
  }

  lemma {:induction false} ClipMembers(rows: int, cols: int, row: int, col: int, ds: seq<Pos>, q: Pos)
    ensures q in Clip(rows, cols, row, col, ds) <==>
      InBounds(rows, cols, q) && (q.0 - row, q.1 - col) in ds
    ensures |Clip(rows, cols, row, col, ds)| <= |ds|
  {
    if ds != [] {
      var init := ds[..|ds| - 1];
      ClipMembers(rows, cols, row, col, init, q);
      assert ds == init + [ds[|ds| - 1]];
    }
  }

  /** Clipping a list of distinct offsets gives distinct positions. */
  lemma {:induction false} ClipDistinct(rows: int, cols: int, row: int, col: int, ds: seq<Pos>)
    requires forall i, j :: 0 <= i < j < |ds| ==> ds[i] != ds[j]
    ensures var ns := Clip(rows, cols, row, col, ds);
      forall i, j :: 0 <= i < j < |ns| ==> ns[i] != ns[j]
  {
    if ds != [] {
      var d := ds[|ds| - 1];
      var init := ds[..|ds| - 1];
      ClipDistinct(rows, cols, row, col, init);
      var p := (row + d.0, col + d.1);
      assert d !in init by {
        forall k | 0 <= k < |init| ensures init[k] != d {
          assert init[k] == ds[k];
        }
      }
      ClipMembers(rows, cols, row, col, init, p);
      assert p !in Clip(rows, cols, row, col, init);
    }
  }

  /** The eight offsets are exactly the non-zero steps of at most one in
      each direction. */
  lemma DirectionsExactly(d: Pos)
    ensures d in Directions <==> Adjacent((0, 0), d)
  {
  }

  /** Clipping any list of exactly the eight offsets keeps the in-bounds
      adjacent positions. */
  lemma ClipAdjacent(rows: int, cols: int, row: int, col: int, ds: seq<Pos>, q: Pos)
    requires forall d :: d in ds <==> Adjacent((0, 0), d)
    ensures q in Clip(rows, cols, row, col, ds) <==> InBounds(rows, cols, q) && Adjacent((row, col), q)
  {
    ClipMembers(rows, cols, row, col, ds, q);
  }

  lemma NeighborMember(rows: int, cols: int, row: int, col: int, q: Pos)
    ensures q in Neighbors(rows, cols, row, col) <==> InBounds(rows, cols, q) && Adjacent((row, col), q)
  {
    forall d ensures d in Directions <==> Adjacent((0, 0), d) {
      DirectionsExactly(d);
    }
    ClipAdjacent(rows, cols, row, col, Directions, q);
  }

  /** The neighbour list holds exactly the in-bounds positions adjacent to
      (row, col), each once; so at most 8 of them, never (row, col) itself. */
  lemma NeighborsExactly(rows: int, cols: int, row: int, col: int)
    ensures forall q :: q in Neighbors(rows, cols, row, col) <==>
      InBounds(rows, cols, q) && Adjacent((row, col), q)
    ensures var ns := Neighbors(rows, cols, row, col);
      |ns| <= 8 && (forall i, j :: 0 <= i < j < |ns| ==> ns[i] != ns[j])
    ensures (row, col) !in Neighbors(rows, cols, row, col)
  {
    forall q ensures q in Neighbors(rows, cols, row, col) <==>
      InBounds(rows, cols, q) && Adjacent((row, col), q)
    {
      NeighborMember(rows, cols, row, col, q);
    }
    ClipMembers(rows, cols, row, col, Directions, (row, col));
    ClipDistinct(rows, cols, row, col, Directions);
  }

  // ---------------------------------------------------------------------
  // Counting

  /** The properties of a cell the board counts. */
  datatype Trait = Mine | Safe | Flagged | RevealedSafe | Hidden | Any

  predicate Has(c: Cell, t: Trait) {
    match t
    case Mine => c.isMine
    case Safe => !c.isMine
    case Flagged => c.isFlagged
    case RevealedSafe => c.isRevealed && !c.isMine
    case Hidden => !c.isRevealed
    case Any => true
  }

  function Ind(c: Cell, t: Trait): nat {
    if Has(c, t) then 1 else 0
  }

  /** Number of cells of a row that have trait t, scanning left to right. */
  function CountRow(cs: seq<Cell>, t: Trait): nat
  {
    if cs == [] then 0 else CountRow(cs[..|cs| - 1], t) + Ind(cs[|cs| - 1], t)
  }

  /** Number of cells of a grid that have trait t, scanning row by row. */
  function CountGrid(g: seq<seq<Cell>>, t: Trait): nat
  {
    if g == [] then 0 else CountGrid(g[..|g| - 1], t) + CountRow(g[|g| - 1], t)
  }

  lemma {:induction false} CountRowUpdate(cs: seq<Cell>, c: nat, x: Cell, t: Trait)
    requires c < |cs|
    ensures CountRow(cs[c := x], t) == CountRow(cs, t) - Ind(cs[c], t) + Ind(x, t)
  {
    var n := |cs|;
    if c == n - 1 {
      assert cs[c := x][..n - 1] == cs[..n - 1];
    } else {
      assert cs[c := x][..n - 1] == cs[..n - 1][c := x];
      CountRowUpdate(cs[..n - 1], c, x, t);
    }
  }

  /** Replacing one cell changes a count only by that cell's contribution. */
  lemma {:induction false} CountGridUpdate(g: seq<seq<Cell>>, r: nat, c: nat, x: Cell, t: Trait)
    requires r < |g| && c < |g[r]|
    ensures CountGrid(g[r := g[r][c := x]], t) == CountGrid(g, t) - Ind(g[r][c], t) + Ind(x, t)
  {
    var n := |g|;
    var g' := g[r := g[r][c := x]];
    if r == n - 1 {
      assert g'[..n - 1] == g[..n - 1];
      CountRowUpdate(g[r], c, x, t);
    } else {
      assert g'[..n - 1] == g[..n - 1][r := g[r][c := x]];
      CountGridUpdate(g[..n - 1], r, c, x, t);
    }
  }

  lemma {:induction false} CountRowMono(a: seq<Cell>, b: seq<Cell>, t: Trait, u: Trait)
    requires |a| == |b|
    requires forall c :: 0 <= c < |a| ==> Ind(a[c], t) <= Ind(b[c], u)
    ensures CountRow(a, t) <= CountRow(b, u)
  {
    if a != [] {
      CountRowMono(a[..|a| - 1], b[..|b| - 1], t, u);
    }
  }

  /** A count can only shrink when every cell's contribution shrinks. */
  lemma {:induction false} CountGridMono(g1: seq<seq<Cell>>, g2: seq<seq<Cell>>, t: Trait, u: Trait)
    requires |g1| == |g2|
    requires forall r :: 0 <= r < |g1| ==> |g1[r]| == |g2[r]|
    requires forall r, c :: 0 <= r < |g1| && 0 <= c < |g1[r]| ==> Ind(g1[r][c], t) <= Ind(g2[r][c], u)
    ensures CountGrid(g1, t) <= CountGrid(g2, u)
  {
    if g1 != [] {
      var n := |g1|;
      CountGridMono(g1[..n - 1], g2[..n - 1], t, u);
      CountRowMono(g1[n - 1], g2[n - 1], t, u);
    }
  }

  /** Grids that agree on a trait cell by cell have the same count of it. */
  lemma CountGridSame(g1: seq<seq<Cell>>, g2: seq<seq<Cell>>, t: Trait)
    requires |g1| == |g2|
    requires forall r :: 0 <= r < |g1| ==> |g1[r]| == |g2[r]|
    requires forall r, c :: 0 <= r < |g1| && 0 <= c < |g1[r]| ==> Has(g1[r][c], t) == Has(g2[r][c], t)
    ensures CountGrid(g1, t) == CountGrid(g2, t)
  {
    CountGridMono(g1, g2, t, t);
    CountGridMono(g2, g1, t, t);
  }

  lemma {:induction false} CountRowAll(cs: seq<Cell>)
    ensures CountRow(cs, Any) == |cs|
  {
    if cs != [] {
      CountRowAll(cs[..|cs| - 1]);
    }
  }

  /** Every cell counts once: a rows x cols grid has rows * cols cells. */
  lemma {:induction false} CountGridAll(g: seq<seq<Cell>>, rows: nat, cols: nat)
    requires IsGrid(g, rows, cols)
    ensures CountGrid(g, Any) == rows * cols
  {
    if rows > 0 {
      CountGridAll(g[..rows - 1], rows - 1, cols);
      CountRowAll(g[rows - 1]);
    }
  }

  lemma {:induction false} CountRowNone(cs: seq<Cell>, t: Trait)
    requires forall c :: 0 <= c < |cs| ==> !Has(cs[c], t)
    ensures CountRow(cs, t) == 0
  {
    if cs != [] {
      CountRowNone(cs[..|cs| - 1], t);
    }
  }

  /** No cell has the trait, so the count is zero. */
  lemma {:induction false} CountGridNone(g: seq<seq<Cell>>, t: Trait)
    requires forall r, c :: 0 <= r < |g| && 0 <= c < |g[r]| ==> !Has(g[r][c], t)
    ensures CountGrid(g, t) == 0
  {
    if g != [] {
      CountGridNone(g[..|g| - 1], t);
      CountRowNone(g[|g| - 1], t);
    }
  }

  lemma {:induction false} CountRowSplit(cs: seq<Cell>, t: Trait, u: Trait, v: Trait)
    requires forall c :: 0 <= c < |cs| ==> Ind(cs[c], t) + Ind(cs[c], u) == Ind(cs[c], v)
    ensures CountRow(cs, t) + CountRow(cs, u) == CountRow(cs, v)
  {
    if cs != [] {
      CountRowSplit(cs[..|cs| - 1], t, u, v);
    }
  }

  /** When every cell has trait v exactly if it has t or u (and never both),
      the counts add up. */
  lemma {:induction false} CountGridSplit(g: seq<seq<Cell>>, t: Trait, u: Trait, v: Trait)
    requires forall r, c :: 0 <= r < |g| && 0 <= c < |g[r]| ==> Ind(g[r][c], t) + Ind(g[r][c], u) == Ind(g[r][c], v)
    ensures CountGrid(g, t) + CountGrid(g, u) == CountGrid(g, v)
  {
    if g != [] {
      CountGridSplit(g[..|g| - 1], t, u, v);
      CountRowSplit(g[|g| - 1], t, u, v);
    }
  }

  lemma {:induction false} CountRowFull(a: seq<Cell>, b: seq<Cell>, t: Trait, u: Trait)
    requires |a| == |b|
    requires forall c :: 0 <= c < |a| ==> Ind(a[c], t) <= Ind(b[c], u)
    requires CountRow(a, t) == CountRow(b, u)
    ensures forall c :: 0 <= c < |a| ==> Ind(a[c], t) == Ind(b[c], u)
  {
    if a != [] {
      var n := |a|;
      CountRowMono(a[..n - 1], b[..n - 1], t, u);
      CountRowFull(a[..n - 1], b[..n - 1], t, u);
      assert forall c :: 0 <= c < n - 1 ==> a[c] == a[..n - 1][c] && b[c] == b[..n - 1][c];
    }
  }

  /** If every cell's contribution to t is at most its contribution to u and
      the totals agree, then the contributions agree everywhere. */
  lemma {:induction false} CountGridFull(g1: seq<seq<Cell>>, g2: seq<seq<Cell>>, t: Trait, u: Trait)
    requires |g1| == |g2|
    requires forall r :: 0 <= r < |g1| ==> |g1[r]| == |g2[r]|
    requires forall r, c :: 0 <= r < |g1| && 0 <= c < |g1[r]| ==> Ind(g1[r][c], t) <= Ind(g2[r][c], u)
    requires CountGrid(g1, t) == CountGrid(g2, u)
    ensures forall r, c :: 0 <= r < |g1| && 0 <= c < |g1[r]| ==> Ind(g1[r][c], t) == Ind(g2[r][c], u)
  {
    if g1 != [] {
      var n := |g1|;
      CountGridMono(g1[..n - 1], g2[..n - 1], t, u);
      CountRowMono(g1[n - 1], g2[n - 1], t, u);
      CountGridFull(g1[..n - 1], g2[..n - 1], t, u);
      CountRowFull(g1[n - 1], g2[n - 1], t, u);
      assert forall r :: 0 <= r < n - 1 ==> g1[r] == g1[..n - 1][r] && g2[r] == g2[..n - 1][r];
    }
  }
}
