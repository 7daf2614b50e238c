/**
  The north-west corner heuristic for the transportation problem: walk a
  cursor from the top-left cell of an m-by-n grid; at each cell place the
  smaller of the remaining supply of its row and the remaining demand of its
  column, move down when the row's supply is used up and right when the
  column's demand is used up, and stop when the cursor leaves the grid.
 */
module NorthWest {
  import opened Matrix

  /** A cell of the allocation grid. */
  datatype Cell = Cell(row: nat, col: nat)

  /** The smaller of a and b, as Python's min. */
  function Min(a: int, b: int): int {
    if a <= b then a else b
  }

  // ---------------------------------------------------------------------
  // The path of the cursor
  // ---------------------------------------------------------------------

  /** b is one move of the cursor from a: down, right, or both at once. */
  predicate IsStep(a: Cell, b: Cell) {
    (b.row == a.row || b.row == a.row + 1) &&
    (b.col == a.col || b.col == a.col + 1) &&
    b != a
  }

  /** The cursor went from the k-th cell of the path to the next one in one move. */
  predicate SteppedAt(path: seq<Cell>, k: nat)
    requires k + 1 < |path|
  {
    IsStep(path[k], path[k + 1])
  }

  /** A path from the north-west corner made of cursor moves. */
  predicate Staircase(path: seq<Cell>) {
    (|path| > 0 ==> path[0] == Cell(0, 0)) &&
    forall k :: 0 <= k < |path| - 1 ==> SteppedAt(path, k)
  }

  predicate InGrid(path: seq<Cell>, m: nat, n: nat) {
    forall k :: 0 <= k < |path| ==> path[k].row < m && path[k].col < n
  }

  /** The k-th cell of a staircase lies at least k moves from the corner. */
  lemma {:induction false} StaircaseRank(path: seq<Cell>, k: nat)
    requires Staircase(path) && k < |path|
    ensures path[k].row + path[k].col >= k
  {
    if k > 0 {
      StaircaseRank(path, k - 1);
      assert SteppedAt(path, k - 1);
    }
  }

  /**
    Along a staircase neither coordinate ever decreases and the cells are
    pairwise distinct, so no cell is visited twice.
   */
  lemma {:induction false} StaircaseMonotone(path: seq<Cell>, k: nat, l: nat)
    requires Staircase(path) && k < l < |path|
    ensures path[k].row <= path[l].row && path[k].col <= path[l].col
    ensures path[k] != path[l]
  {
    if k < l - 1 {
      StaircaseMonotone(path, k, l - 1);
    }
    assert SteppedAt(path, l - 1);
  }

  /** A staircase inside an m-by-n grid has at most m + n - 1 cells. */
  lemma StaircaseLength(path: seq<Cell>, m: nat, n: nat)
    requires Staircase(path) && InGrid(path, m, n)
    ensures |path| == 0 || |path| + 1 <= m + n
  {
    if |path| > 0 {
      StaircaseRank(path, |path| - 1);
    }
  }

  // ---------------------------------------------------------------------
  // What the allocation looks like
  // ---------------------------------------------------------------------

  /** No row ships more than its supply. */
  ghost predicate WithinSupply(g: seq<seq<int>>, supply: seq<nat>)
    requires |g| == |supply|
  {
    forall r :: 0 <= r < |g| ==> Sum(g[r]) <= supply[r]
  }

  /** No column receives more than its demand. */
  ghost predicate WithinDemand(g: seq<seq<int>>, demand: seq<nat>)
    requires forall r :: 0 <= r < |g| ==> |demand| <= |g[r]|
  {
    forall c :: 0 <= c < |demand| ==> ColSum(g, c) <= demand[c]
  }

  /** Every row ships exactly its supply. */
  ghost predicate MeetsSupply(g: seq<seq<int>>, supply: seq<nat>)
    requires |g| == |supply|
  {
    forall r :: 0 <= r < |g| ==> Sum(g[r]) == supply[r]
  }

  /** Every column receives exactly its demand. */
  ghost predicate MeetsDemand(g: seq<seq<int>>, demand: seq<nat>)
    requires forall r :: 0 <= r < |g| ==> |demand| <= |g[r]|
  {
    forall c :: 0 <= c < |demand| ==> ColSum(g, c) == demand[c]
  }

  /** Every cell off the path holds 0. */
  ghost predicate ZeroOffPath(g: seq<seq<int>>, m: nat, n: nat, path: seq<Cell>)
    requires IsMatrix(g, m, n)
  {
    forall r, c {:trigger g[r][c]} :: 0 <= r < m && 0 <= c < n && Cell(r, c) !in path ==> g[r][c] == 0
  }

  /** What row r has shipped to the columns left of c. */
  function ShippedBefore(g: seq<seq<int>>, r: nat, c: nat): int
    requires r < |g| && c <= |g[r]|
  {
    Sum(g[r][..c])
  }

  /** What column c has received from the rows above r. */
  function ReceivedBefore(g: seq<seq<int>>, r: nat, c: nat): int
    requires r <= |g| && forall t :: 0 <= t < |g| ==> c < |g[t]|
  {
    Sum(Column(g, c)[..r])
  }

  /**
    Every cell on the path holds the smaller of what its row still had to
    ship after the cells to its left and what its column still needed after
    the cells above it: the amounts left when the cursor reached it.
   */
  ghost predicate Greedy(g: seq<seq<int>>, supply: seq<nat>, demand: seq<nat>, path: seq<Cell>)
    requires IsMatrix(g, |supply|, |demand|) && InGrid(path, |supply|, |demand|)
  {
    forall k :: 0 <= k < |path| ==>
      g[path[k].row][path[k].col] ==
        Min(supply[path[k].row] - ShippedBefore(g, path[k].row, path[k].col),
            demand[path[k].col] - ReceivedBefore(g, path[k].row, path[k].col))
  }

  // ---------------------------------------------------------------------
  // The loop, on values
  // ---------------------------------------------------------------------

  /**
    The variables of the loop: what is left of each supply and demand, the
    allocation so far, the cells written so far (in the order written) and
    the cursor (i, j).
   */
  datatype State = State(supply: seq<nat>, demand: seq<nat>, allocation: seq<seq<int>>,
                         path: seq<Cell>, i: nat, j: nat)

  /** The allocation is supply-by-demand and the cursor has not passed the edge of the grid. */
  predicate Shaped(st: State) {
    IsMatrix(st.allocation, |st.supply|, |st.demand|) && st.i <= |st.supply| && st.j <= |st.demand|
  }

  /** The loop condition: the cursor is on the grid. */
  predicate OnGrid(st: State) {
    st.i < |st.supply| && st.j < |st.demand|
  }

  /** Before the loop: the full amounts, an all-zero allocation, the cursor in the corner. */
  function Start(supply: seq<nat>, demand: seq<nat>): State {
    State(supply, demand, Zeros(|supply|, |demand|), [], 0, 0)
  }

  /**
    One pass of the loop body: place the smaller remaining amount on the
    cursor cell, take it off the row's supply and the column's demand, then
    move down if the row is used up and right if the column is. The amount
    placed uses up the row or the column, so the cursor always moves: down,
    right or both.
   */
  function Step(st: State): (next: State)
    requires Shaped(st) && OnGrid(st)
    ensures |next.supply| == |st.supply| && |next.demand| == |st.demand| && Shaped(next)
    ensures next.path == st.path + [Cell(st.i, st.j)]
    ensures next.supply[st.i] == 0 || next.demand[st.j] == 0
    ensures IsStep(Cell(st.i, st.j), Cell(next.i, next.j))
  {
    var quantity := Min(st.supply[st.i], st.demand[st.j]);
    var supply := st.supply[st.i := st.supply[st.i] - quantity];
    var demand := st.demand[st.j := st.demand[st.j] - quantity];
    State(supply, demand, SetCell(st.allocation, st.i, st.j, quantity), st.path + [Cell(st.i, st.j)],
          if supply[st.i] == 0 then st.i + 1 else st.i,
          if demand[st.j] == 0 then st.j + 1 else st.j)
  }

  /**
    The loop run from st until the cursor leaves the grid. It ends with the
    cursor off the grid, having written one cell per pass and moved the
    cursor at least once per pass.
   */
  function Walk(st: State): (last: State)
    requires Shaped(st)
    ensures |last.supply| == |st.supply| && |last.demand| == |st.demand|
    ensures Shaped(last) && !OnGrid(last)
    ensures st.i <= last.i && st.j <= last.j
    ensures |st.path| <= |last.path| && last.path[..|st.path|] == st.path
    ensures |last.path| - |st.path| <= (last.i + last.j) - (st.i + st.j)
    decreases |st.supply| - st.i + |st.demand| - st.j
  {
    if OnGrid(st) then Walk(Step(st)) else st
  }

  /** The state in which the heuristic stops, for the given supplies and demands. */
  function Final(supply: seq<nat>, demand: seq<nat>): State {
    Walk(Start(supply, demand))
  }

  // ---------------------------------------------------------------------
  // The loop invariant
  // ---------------------------------------------------------------------

  /**
    The amounts with cursor (i, j): s and d are what is left of the original
    supply S and demand D once the allocation g so far is taken off, and the
    rows above the cursor and the columns left of it are used up.
   */
  ghost predicate Balances(S: seq<nat>, D: seq<nat>, s: seq<nat>, d: seq<nat>,
                           g: seq<seq<int>>, i: nat, j: nat)
  {
    && |s| == |S| && |d| == |D| && i <= |S| && j <= |D|
    && IsMatrix(g, |S|, |D|)
    && (forall r {:trigger Sum(g[r])} :: 0 <= r < |S| ==> s[r] + Sum(g[r]) == S[r])
    && (forall c {:trigger ColSum(g, c)} :: 0 <= c < |D| ==> d[c] + ColSum(g, c) == D[c])
    && (forall r :: 0 <= r < i ==> s[r] == 0)
    && (forall c :: 0 <= c < j ==> d[c] == 0)
  }

  /** Every path cell is behind the cursor (i, j): weakly above and left, and not (i, j) itself. */
  ghost predicate Behind(path: seq<Cell>, i: nat, j: nat) {
    forall k :: 0 <= k < |path| ==>
      path[k].row <= i && path[k].col <= j && (path[k].row < i || path[k].col < j)
  }

  /** The cells written so far form a staircase in the grid that the cursor (i, j) continues. */
  ghost predicate Trail(path: seq<Cell>, i: nat, j: nat, m: nat, n: nat) {
    && Staircase(path) && InGrid(path, m, n)
    && (path == [] ==> i == 0 && j == 0)
    && (path != [] ==> IsStep(path[|path| - 1], Cell(i, j)))
    && Behind(path, i, j)
  }

  /** The loop invariant, for original supply S and demand D. */
  ghost predicate Invariant(S: seq<nat>, D: seq<nat>, st: State) {
    && Balances(S, D, st.supply, st.demand, st.allocation, st.i, st.j)
    && Trail(st.path, st.i, st.j, |S|, |D|)
    && ZeroOffPath(st.allocation, |S|, |D|, st.path)
    && Greedy(st.allocation, S, D, st.path)
  }

  /** Nothing allocated yet, cursor in the corner. */
  lemma InitialInvariant(S: seq<nat>, D: seq<nat>)
    ensures Invariant(S, D, Start(S, D))
  {
    ZerosSums(|S|, |D|);
  }

  /** The cursor's own row has nothing from column j on, and its column nothing from row i down. */
  lemma CursorLinesEmpty(S: seq<nat>, D: seq<nat>, s: seq<nat>, d: seq<nat>,
                         g: seq<seq<int>>, path: seq<Cell>, i: nat, j: nat)
    requires Balances(S, D, s, d, g, i, j) && i < |S| && j < |D|
    requires Behind(path, i, j) && ZeroOffPath(g, |S|, |D|, path)
    ensures Cell(i, j) !in path && g[i][j] == 0
    ensures s[i] == S[i] - ShippedBefore(g, i, j)
    ensures d[j] == D[j] - ReceivedBefore(g, i, j)
  {
    var m, n := |S|, |D|;
    forall c | j <= c < n ensures g[i][c] == 0 {
      assert forall k :: 0 <= k < |path| ==> path[k] != Cell(i, c);
    }
    SumZeroTail(g[i], j);
    forall r | i <= r < m ensures Column(g, j)[r] == 0 {
      assert forall k :: 0 <= k < |path| ==> path[k] != Cell(r, j);
    }
    SumZeroTail(Column(g, j), i);
    assert s[i] + Sum(g[i]) == S[i];
    assert d[j] + ColSum(g, j) == D[j];
  }

  /** Placing the smaller remaining amount on the empty cursor cell and taking it off both amounts keeps the balances. */
  lemma StepBalances(S: seq<nat>, D: seq<nat>, st: State)
    requires Shaped(st) && OnGrid(st)
    requires Balances(S, D, st.supply, st.demand, st.allocation, st.i, st.j)
    requires st.allocation[st.i][st.j] == 0
    ensures Balances(S, D, Step(st).supply, Step(st).demand, Step(st).allocation, Step(st).i, Step(st).j)
  {
    var q := Min(st.supply[st.i], st.demand[st.j]);
    assert Step(st).allocation == SetCell(st.allocation, st.i, st.j, q);
    SetCellSums(st.allocation, |S|, |D|, st.i, st.j, q);
  }

  /** Appending the cursor cell to the path and moving the cursor keeps the staircase. */
  lemma StepTrail(path: seq<Cell>, i: nat, j: nat, m: nat, n: nat, i': nat, j': nat)
    requires Trail(path, i, j, m, n) && i < m && j < n
    requires IsStep(Cell(i, j), Cell(i', j'))
    ensures Trail(path + [Cell(i, j)], i', j', m, n)
  {
    var path' := path + [Cell(i, j)];
    forall k | 0 <= k < |path'| - 1 ensures SteppedAt(path', k) {
      if k < |path| - 1 {
        assert SteppedAt(path, k);
        assert path'[k] == path[k] && path'[k + 1] == path[k + 1];
      }
    }
  }

  /** Writing only the cursor cell, which joins the path, keeps every other cell at 0. */
  lemma StepZeroOffPath(g: seq<seq<int>>, m: nat, n: nat, path: seq<Cell>, i: nat, j: nat, q: int)
    requires IsMatrix(g, m, n) && i < m && j < n && ZeroOffPath(g, m, n, path)
    ensures ZeroOffPath(SetCell(g, i, j, q), m, n, path + [Cell(i, j)])
  {
  }

  /**
    Writing q into the cursor cell, when q is what its row and column have
    left, keeps every path cell greedy: no earlier cell's row part to its
    left or column part above it changes.
   */
  lemma StepGreedy(S: seq<nat>, D: seq<nat>, g: seq<seq<int>>, path: seq<Cell>, i: nat, j: nat, q: int)
    requires IsMatrix(g, |S|, |D|) && i < |S| && j < |D|
    requires InGrid(path, |S|, |D|) && Behind(path, i, j) && Greedy(g, S, D, path)
    requires q == Min(S[i] - ShippedBefore(g, i, j), D[j] - ReceivedBefore(g, i, j))
    ensures InGrid(path + [Cell(i, j)], |S|, |D|)
    ensures Greedy(SetCell(g, i, j, q), S, D, path + [Cell(i, j)])
  {
    var m, n := |S|, |D|;
    var g', path' := SetCell(g, i, j, q), path + [Cell(i, j)];
    forall k | 0 <= k < |path'|
      ensures g'[path'[k].row][path'[k].col] ==
        Min(S[path'[k].row] - ShippedBefore(g', path'[k].row, path'[k].col),
            D[path'[k].col] - ReceivedBefore(g', path'[k].row, path'[k].col))
    {
      var r, c := path'[k].row, path'[k].col;
      SetCellRowPrefix(g, m, n, i, j, q, r, c);
      SetCellColumnPrefix(g, m, n, i, j, q, r, c);
      if k < |path| {
        assert path'[k] == path[k];
      }
    }
  }

  /** One pass of the loop body keeps the invariant. */
  lemma StepKeepsInvariant(S: seq<nat>, D: seq<nat>, st: State)
    requires Invariant(S, D, st) && OnGrid(st)
    ensures Invariant(S, D, Step(st))
  {
    var m, n := |S|, |D|;
    var s, d, g, path, i, j := st.supply, st.demand, st.allocation, st.path, st.i, st.j;
    var next := Step(st);
    var q := Min(s[i], d[j]);
    assert Trail(next.path, next.i, next.j, m, n) by {
      StepTrail(path, i, j, m, n, next.i, next.j);
    }
    assert next.allocation == SetCell(g, i, j, q);
    CursorLinesEmpty(S, D, s, d, g, path, i, j);
    StepBalances(S, D, st);
    assert ZeroOffPath(next.allocation, m, n, next.path) by {
      StepZeroOffPath(g, m, n, path, i, j, q);
    }
    StepGreedy(S, D, g, path, i, j, q);
  }

  /** Running the loop to its end keeps the invariant. */
  lemma {:induction false} WalkKeepsInvariant(S: seq<nat>, D: seq<nat>, st: State)
    requires Invariant(S, D, st)
    ensures Invariant(S, D, Walk(st))
    decreases |st.supply| - st.i + |st.demand| - st.j
  {
    if OnGrid(st) {
      StepKeepsInvariant(S, D, st);
      WalkKeepsInvariant(S, D, Step(st));
    }
  }

  /**
    Once the cursor has left the grid: no row ships more than its supply and
    no column receives more than its demand; if total supply is at most total
    demand every row ships exactly its supply, if total demand is at most
    total supply every column receives exactly its demand, and what is
    shipped in all is the smaller of the two totals.
   */
  lemma Conclusion(S: seq<nat>, D: seq<nat>, s: seq<nat>, d: seq<nat>,
                   g: seq<seq<int>>, i: nat, j: nat)
    requires Balances(S, D, s, d, g, i, j) && (i == |S| || j == |D|)
    ensures WithinSupply(g, S) && WithinDemand(g, D)
    ensures Sum(S) <= Sum(D) ==> MeetsSupply(g, S)
    ensures Sum(D) <= Sum(S) ==> MeetsDemand(g, D)
    ensures Total(g) == Min(Sum(S), Sum(D))
  {
    var m, n := |S|, |D|;
    SumPointwise(s, RowSums(g), S);
    SumPointwise(d, ColSums(g, n), D);
    TotalByColumns(g, m, n);
    SumNonNegative(s);
    SumNonNegative(d);
    SumZeroIffAllZero(s);
    SumZeroIffAllZero(d);
    if i == m {
      assert Sum(s) == 0;
    } else {
      assert Sum(d) == 0;
    }
    forall r | 0 <= r < m ensures Sum(g[r]) <= S[r] {
      assert s[r] + Sum(g[r]) == S[r];
    }
    forall c | 0 <= c < n ensures ColSum(g, c) <= D[c] {
      assert d[c] + ColSum(g, c) == D[c];
    }
  }

  // ---------------------------------------------------------------------
  // What the heuristic promises
  // ---------------------------------------------------------------------

  /**
    The allocation the heuristic returns has one row per supply and one
    column per demand. No row ships more than its supply and no column
    receives more than its demand. With total supply equal to total demand,
    every row ships exactly its supply and every column receives exactly its
    demand. Otherwise the side with the smaller total is met exactly, and the
    total shipped is the smaller of the two totals.
   */
  lemma FinalAmounts(S: seq<nat>, D: seq<nat>)
    ensures IsMatrix(Final(S, D).allocation, |S|, |D|)
    ensures WithinSupply(Final(S, D).allocation, S) && WithinDemand(Final(S, D).allocation, D)
    ensures Sum(S) <= Sum(D) ==> MeetsSupply(Final(S, D).allocation, S)
    ensures Sum(D) <= Sum(S) ==> MeetsDemand(Final(S, D).allocation, D)
    ensures Total(Final(S, D).allocation) == Min(Sum(S), Sum(D))
  {
    var last := Final(S, D);
    InitialInvariant(S, D);
    WalkKeepsInvariant(S, D, Start(S, D));
    Conclusion(S, D, last.supply, last.demand, last.allocation, last.i, last.j);
  }

  /**
    The cells the heuristic writes form a staircase from the north-west
    corner: each one below, right of, or diagonally below-right of the one
    before, so that no cell is written twice and at most m + n - 1 are
    written. Every cell off that path keeps its initial 0, and every cell on
    it holds the smaller of what its row and its column had left when the
    cursor reached it.
   */
  lemma FinalPath(S: seq<nat>, D: seq<nat>)
    ensures Staircase(Final(S, D).path) && InGrid(Final(S, D).path, |S|, |D|)
    ensures forall k, l :: 0 <= k < l < |Final(S, D).path| ==> Final(S, D).path[k] != Final(S, D).path[l]
    ensures Final(S, D).path == [] || |Final(S, D).path| < |S| + |D|
    ensures IsMatrix(Final(S, D).allocation, |S|, |D|)
    ensures ZeroOffPath(Final(S, D).allocation, |S|, |D|, Final(S, D).path)
    ensures Greedy(Final(S, D).allocation, S, D, Final(S, D).path)
  {
    var path := Final(S, D).path;
    InitialInvariant(S, D);
    WalkKeepsInvariant(S, D, Start(S, D));
    forall k, l | 0 <= k < l < |path| ensures path[k] != path[l] {
      StaircaseMonotone(path, k, l);
    }
    StaircaseLength(path, |S|, |D|);
  }

  // ---------------------------------------------------------------------
  // The heuristic on arrays
  // ---------------------------------------------------------------------

  /**
    One placement of the loop body, with the cursor at (i, j) and st the
    loop's state: put the smaller of the row's remaining supply and the
    column's remaining demand on cell (i, j) and take it off both. The arrays
    then hold the amounts and allocation of Step(st), and the cursor is to
    move down exactly when the row is used up and right exactly when the
    column is.
   */
  method Place(s: array<nat>, d: array<nat>, allocation: array2<nat>, i: nat, j: nat, ghost st: State)
      returns (quantity: nat)
    requires s != d && Shaped(st) && OnGrid(st)
    requires st.supply == s[..] && st.demand == d[..] && st.allocation == Cells(allocation)
    requires st.i == i && st.j == j
    modifies s, d, allocation
    ensures quantity == Min(old(s[i]), old(d[j]))
    ensures s[..] == Step(st).supply && d[..] == Step(st).demand && Cells(allocation) == Step(st).allocation
    ensures Step(st).i == (if s[i] == 0 then i + 1 else i)
    ensures Step(st).j == (if d[j] == 0 then j + 1 else j)
  {
    assert |Cells(allocation)| == allocation.Length0 && |Cells(allocation)[i]| == allocation.Length1;
    quantity := Min(s[i], d[j]);
    allocation[i, j] := quantity;
    s[i] := s[i] - quantity;
    d[j] := d[j] - quantity;
    assert s[..] == Step(st).supply && d[..] == Step(st).demand;
    MatrixEquality(Cells(allocation), Step(st).allocation, allocation.Length0, allocation.Length1);
  }

  /**
    The north-west corner allocation for the given supplies and demands,
    shaped like cost, whose entries are not used. The supply and demand
    arrays are only read: the loop works on copies of them.
   */
  method NorthWestCorner(supply: array<nat>, demand: array<nat>, cost: array2<int>)
      returns (allocation: array2<nat>)
    requires supply.Length == cost.Length0 && demand.Length == cost.Length1
    ensures fresh(allocation)
    ensures allocation.Length0 == cost.Length0 && allocation.Length1 == cost.Length1
    ensures Cells(allocation) == Final(supply[..], demand[..]).allocation
    ensures WithinSupply(Cells(allocation), supply[..]) && WithinDemand(Cells(allocation), demand[..])
    ensures Sum(supply[..]) <= Sum(demand[..]) ==> MeetsSupply(Cells(allocation), supply[..])
    ensures Sum(demand[..]) <= Sum(supply[..]) ==> MeetsDemand(Cells(allocation), demand[..])
    ensures Total(Cells(allocation)) == Min(Sum(supply[..]), Sum(demand[..]))
  {
    var m, n := cost.Length0, cost.Length1;
    var s := new nat[m](k reads supply requires 0 <= k < m => supply[k]);
    var d := new nat[n](k reads demand requires 0 <= k < n => demand[k]);
    allocation := new nat[m, n]((r, c) => 0);
    ghost var path: seq<Cell> := [];
    var i, j := 0, 0;
    assert s[..] == supply[..] && d[..] == demand[..];
    MatrixEquality(Cells(allocation), Zeros(m, n), m, n);
    while i < m && j < n
      invariant s.Length == m && d.Length == n && i <= m && j <= n
      invariant Walk(State(s[..], d[..], Cells(allocation), path, i, j)) == Final(supply[..], demand[..])
      decreases m - i + n - j
    {
      ghost var before := State(s[..], d[..], Cells(allocation), path, i, j);
      var quantity := Place(s, d, allocation, i, j, before);
      path := path + [Cell(i, j)];
      if s[i] == 0 {
        i := i + 1;
      }
      if d[j] == 0 {
        j := j + 1;
      }
      assert State(s[..], d[..], Cells(allocation), path, i, j) == Step(before);
    }
    FinalAmounts(supply[..], demand[..]);
  }

  // ---------------------------------------------------------------------
  // Total cost
  // ---------------------------------------------------------------------

  /** np.sum(allocation * cost): what shipping the allocation costs. */
  function TotalCost(allocation: seq<seq<int>>, cost: seq<seq<int>>, m: nat, n: nat): int
    requires IsMatrix(allocation, m, n) && IsMatrix(cost, m, n)
  {
    Total(Product(allocation, cost, m, n))
  }

  /**
    With non-negative shipments and every unit cost between lo and hi, the
    total cost lies between lo and hi times the total shipped; in particular
    it is non-negative when no cost is negative.
   */
  lemma TotalCostBounds(allocation: seq<seq<int>>, cost: seq<seq<int>>, m: nat, n: nat, lo: int, hi: int)
    requires IsMatrix(allocation, m, n) && IsMatrix(cost, m, n)
    requires forall r, c :: 0 <= r < m && 0 <= c < n ==> allocation[r][c] >= 0 && lo <= cost[r][c] <= hi
    ensures lo * Total(allocation) <= TotalCost(allocation, cost, m, n) <= hi * Total(allocation)
  {
    WeightedTotalBounds(allocation, cost, m, n, lo, hi);
  }
}
