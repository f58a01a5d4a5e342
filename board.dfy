/** The `Grid` class: the ground-truth layer `master` (0 empty, 1-8 indicator, 100 mine),
    the `display` layer (-1 hidden, -2 flagged, otherwise the revealed master value) and
    the scratch layer `periphery` used while building and solving regions. Cell (x, y) is
    stored at [x, y]; the source's row flip is Cells.StorageRow. */
module Board {
  import opened Cells
  import Counter
  import opened Probability
  import opened Marks

  lemma SubsetCard(a: set<Cell>, b: set<Cell>)
    requires a <= b
    ensures |a| <= |b|
  {
    if a != {} {
      var c :| c in a;
      SubsetCard(a - {c}, b - {c});
    }
  }

  /** Two steps of a search that adds to a region exactly the cells it takes out of an
      unmarked set compose into one. */
  lemma GrowStep(e0: set<Cell>, e1: set<Cell>, e2: set<Cell>, u0: set<Cell>, u1: set<Cell>, u2: set<Cell>)
    requires u2 <= u1 <= u0
    requires e1 == e0 + (u0 - u1) && e2 == e1 + (u1 - u2)
    ensures e2 == e0 + (u0 - u2)
  {
  }

  /** Math.floor(Math.random() * n) for a drawn value r in [0, 1). */
  function Scale(r: real, n: nat): (k: int)
    requires 0.0 <= r < 1.0
    ensures n > 0 ==> 0 <= k < n
    ensures n == 0 ==> k == 0
  {
    assert 0.0 <= r * n as real by {
      assert 0.0 <= r && 0.0 <= n as real;
    }
    assert n > 0 ==> r * n as real < n as real by {
      if n > 0 {
        assert r * n as real < 1.0 * n as real;
      }
    }
    (r * n as real).Floor
  }

  /** The regions start at cells in strictly increasing scan order. */
  predicate StartsAscend(ps: seq<seq<Candidate>>) {
    forall k, l :: 0 <= k < l < |ps| ==> |ps[k]| > 0 && |ps[l]| > 0 && ScanBefore(ps[k][0].cell, ps[l][0].cell)
  }

  /** Every region starts before cell c in scan order. */
  predicate StartsBelow(ps: seq<seq<Candidate>>, c: Cell) {
    forall k :: 0 <= k < |ps| ==> |ps[k]| > 0 && ScanBefore(ps[k][0].cell, c)
  }

  lemma StartsSnoc(ps: seq<seq<Candidate>>, p: seq<Candidate>, x: int, y: int)
    requires StartsAscend(ps) && StartsBelow(ps, (x, y)) && |p| > 0 && p[0].cell == (x, y)
    ensures StartsAscend(ps + [p]) && StartsBelow(ps + [p], (x, y + 1))
  {
  }

  lemma StartsLater(ps: seq<seq<Candidate>>, c: Cell, e: Cell)
    requires StartsBelow(ps, c) && (ScanBefore(c, e) || c == e)
    ensures StartsBelow(ps, e)
  {
  }

  lemma StartsNextColumn(ps: seq<seq<Candidate>>, x: int, h: int)
    requires StartsBelow(ps, (x, h))
    ensures StartsBelow(ps, (x + 1, 0))
  {
  }

  /** Every candidate of the region carries the probability computeProbabilities finds over
      the mark layer m, the display d and f flags left. */
  ghost predicate Priced(cands: seq<Candidate>, m: Layer, d: Layer, f: int) {
    forall i :: 0 <= i < |cands| ==> cands[i].prob == Odds(m, d, f, CellsOf(cands), i)
  }

  /** Every region of ps is priced over the mark layer of ms at the same position. */
  ghost predicate AllPriced(ps: seq<seq<Candidate>>, ms: seq<Layer>, d: Layer, f: int) {
    |ms| == |ps| && forall k :: 0 <= k < |ps| ==> Priced(ps[k], ms[k], d, f)
  }

  lemma PricedSnoc(ps: seq<seq<Candidate>>, ms: seq<Layer>, p: seq<Candidate>, m: Layer, d: Layer, f: int)
    requires AllPriced(ps, ms, d, f) && Priced(p, m, d, f)
    ensures AllPriced(ps + [p], ms + [m], d, f)
  {
  }

  /** The marks each region's search started from, pre[k], follow from the one before: the
      first search starts from the cleared marks, and each later one from marks that unmark
      as the previous search left them everywhere outside the previous region (which is
      what computeProbabilities leaves behind). */
  ghost predicate Chained(ps: seq<seq<Candidate>>, ms: seq<Layer>, pre: seq<Layer>) {
    |ms| == |ps| && |pre| == |ps| &&
    (|pre| > 0 ==> forall c :: c in pre[0] ==> pre[0][c] == 0) &&
    forall k, c :: 0 < k < |ps| && c in pre[k] && c !in CellsOf(ps[k - 1]) ==>
      c in ms[k - 1] && Unmark(pre[k][c]) == Unmark(ms[k - 1][c])
  }

  /** The marks P are those the search after the regions ps may start from. */
  ghost predicate Links(ps: seq<seq<Candidate>>, ms: seq<Layer>, P: Layer) {
    |ms| == |ps| &&
    (ps == [] ==> forall c :: c in P ==> P[c] == 0) &&
    (ps != [] ==> forall c :: c in P && c !in CellsOf(ps[|ps| - 1]) ==>
      c in ms[|ps| - 1] && Unmark(P[c]) == Unmark(ms[|ps| - 1][c]))
  }

  /** Appending a region whose search started from marks P that link to the last one
      keeps the chain. */
  lemma {:induction false} ChainSnoc(ps: seq<seq<Candidate>>, ms: seq<Layer>, pre: seq<Layer>, p: seq<Candidate>, m: Layer, P: Layer)
    requires Chained(ps, ms, pre) && Links(ps, ms, P)
    ensures Chained(ps + [p], ms + [m], pre + [P])
  {
    var qs, ns, rs := ps + [p], ms + [m], pre + [P];
    forall k, c | 0 < k < |qs| && c in rs[k] && c !in CellsOf(qs[k - 1])
      ensures c in ns[k - 1] && Unmark(rs[k][c]) == Unmark(ns[k - 1][c])
    {
      assert qs[k - 1] == ps[k - 1] && ns[k - 1] == ms[k - 1];
      if k < |ps| {
        assert rs[k] == pre[k];
      }
    }
  }

  /** A ground-truth value after setMine's neighbour loop: a mine stays a mine, any other
      value gains one when bumped. */
  function Bumped(v: int, bump: bool): int {
    if v == MINE then MINE else v + (if bump then 1 else 0)
  }

  /** A cell of a and e that b has no cell of e in is in a but not in b. */
  lemma LeftBehind(a: set<Cell>, b: set<Cell>, e: set<Cell>, w: Cell)
    requires w in a * e && b * e == {}
    ensures w !in b && a != b
  {
    assert w !in b * e;
  }

  /** Taking e away from a changes it exactly when a has a cell of e. */
  lemma ShrunkBy(a: set<Cell>, e: set<Cell>, b: set<Cell>)
    requires b == a - e
    ensures b != a <==> a * e != {}
  {
    if a * e != {} {
      var c :| c in a * e;
      assert c !in b;
    }
    if b != a {
      var c :| c in a && c !in b;
      assert c in a * e;
    }
  }

  /** Adding nb[k] to the cells seen of nb's first k extends them to its first k + 1. */
  lemma SeenStep(nb: seq<Cell>, k: nat, seen: set<Cell>)
    requires k < |nb|
    requires forall q :: 0 <= q < k ==> nb[q] in seen
    requires forall c :: c in seen ==> c in nb
    ensures forall q :: 0 <= q < k + 1 ==> nb[q] in seen + {nb[k]}
    ensures forall c :: c in seen + {nb[k]} ==> c in nb
  {
  }

  /** Once every cell of nb is seen, the cells seen are nb's cells. */
  lemma SeenAll(nb: seq<Cell>, seen: set<Cell>)
    requires forall q :: 0 <= q < |nb| ==> nb[q] in seen
    requires forall c :: c in seen ==> c in nb
    ensures Elems(nb) == seen
  {
    forall c | c in nb ensures c in seen {
      var q :| 0 <= q < |nb| && nb[q] == c;
    }
  }

  /** The cells a display layer shows hidden, flagged ones included. */
  ghost function HiddenIn(D: Layer): set<Cell> {
    set c | c in D && D[c] < 0
  }

  /** The cells a display layer shows flagged. */
  ghost function FlaggedIn(D: Layer): set<Cell> {
    set c | c in D && D[c] == FLAGGED
  }

  /** The cells a display layer shows hidden and unflagged. */
  ghost function FreeIn(D: Layer): set<Cell> {
    set c | c in D && D[c] < 0 && D[c] != FLAGGED
  }

  class Grid {
    const width: nat
    const height: nat
    const mines: nat
    const master: array2<int>
    const display: array2<int>
    const periphery: array2<int>
    /** Flags still to place: starts at the mine count, -1 per flag, +1 per unflag. */
    var flags: int
    /** Cells not yet revealed (hidden or flagged). */
    var squaresLeft: int
    var firstPop: bool
    /** The globals gameOver and gameWin, which pop writes. */
    var gameOver: bool
    var gameWin: bool
    /** The values Math.random() will return next. */
    var rand: seq<real>

    ghost predicate Shape() {
      master.Length0 == width && master.Length1 == height &&
      display.Length0 == width && display.Length1 == height &&
      periphery.Length0 == width && periphery.Length1 == height &&
      master != display && master != periphery && display != periphery
    }

    // ---- bounds-guarded accessors and the is* predicates --------------------------------

    predicate IsInBounds(x: int, y: int) {
      0 <= x < width && 0 <= y < height
    }

    predicate IsVisible(x: int, y: int)
      requires Shape()
      reads display
    {
      IsInBounds(x, y) && display[x, y] >= 0
    }

    predicate IsHidden(x: int, y: int)
      requires Shape()
      reads display
    {
      !IsVisible(x, y)
    }

    predicate IsFlagged(x: int, y: int)
      requires Shape()
      reads display
    {
      IsInBounds(x, y) && display[x, y] == FLAGGED
    }

    predicate IsHiddenUnflagged(x: int, y: int)
      requires Shape()
      reads display
    {
      IsInBounds(x, y) && IsHidden(x, y) && !IsFlagged(x, y)
    }

    predicate IsIndicator(x: int, y: int)
      requires Shape()
      reads display
    {
      IsInBounds(x, y) && 1 <= display[x, y] <= 8
    }

    predicate IsEmptyMaster(x: int, y: int)
      requires Shape()
      reads master
    {
      IsInBounds(x, y) && master[x, y] == 0
    }

    predicate IsIndicatorMaster(x: int, y: int)
      requires Shape()
      reads master
    {
      IsInBounds(x, y) && 1 <= master[x, y] <= 8
    }

    predicate IsMineMaster(x: int, y: int)
      requires Shape()
      reads master
    {
      IsInBounds(x, y) && master[x, y] == MINE
    }

    /** `getPeripheryVal(x, y) === v`; out of bounds the value is undefined and equals nothing. */
    predicate MarkIs(x: int, y: int, v: int)
      requires Shape()
      reads periphery
    {
      IsInBounds(x, y) && periphery[x, y] == v
    }

    // ---- the cell sets the invariants speak about -----------------------------------------

    ghost function Hidden(): set<Cell>
      requires Shape()
      reads display
    {
      set x, y | 0 <= x < width && 0 <= y < height && display[x, y] < 0 :: (x, y)
    }

    ghost function Flagged(): set<Cell>
      requires Shape()
      reads display
    {
      set x, y | 0 <= x < width && 0 <= y < height && display[x, y] == FLAGGED :: (x, y)
    }

    ghost function HiddenUnflagged(): set<Cell>
      requires Shape()
      reads display
    {
      set x, y | 0 <= x < width && 0 <= y < height && display[x, y] < 0 && display[x, y] != FLAGGED :: (x, y)
    }

    ghost function MineCells(): set<Cell>
      requires Shape()
      reads master
    {
      set x, y | 0 <= x < width && 0 <= y < height && master[x, y] == MINE :: (x, y)
    }

    /** The number of mines around a cell. */
    ghost function AdjMines(x: int, y: int): nat
      requires Shape()
      reads master
    {
      CountIn(Neighbors(x, y), MineCells())
    }

    /** Every non-mine cell of the ground truth holds the number of mines around it. */
    ghost predicate Truthful()
      requires Shape()
      reads master
    {
      forall x, y :: 0 <= x < width && 0 <= y < height ==>
        master[x, y] == MINE || master[x, y] == AdjMines(x, y)
    }

    /** A cell is hidden, flagged, or shows its ground truth. */
    ghost predicate Shown()
      requires Shape()
      reads master, display
    {
      forall x, y :: 0 <= x < width && 0 <= y < height ==>
        display[x, y] == HIDDEN || display[x, y] == FLAGGED || display[x, y] == master[x, y]
    }

    /** Before the first pop there are no mines and nothing is revealed. */
    ghost predicate Untouched()
      requires Shape()
      reads master, display
    {
      forall x, y :: 0 <= x < width && 0 <= y < height ==>
        master[x, y] == 0 && display[x, y] < 0
    }

    /** The bookkeeping invariant; the ground-truth invariant Truthful is kept apart because
        only mine placement touches master. */
    ghost predicate Valid()
      reads this`squaresLeft, this`firstPop, this`rand, master, display
    {
      Shape() &&
      squaresLeft == |Hidden()| &&
      Shown() &&
      (firstPop ==> Untouched()) &&
      RandOK()
    }

    ghost predicate RandOK()
      reads this`rand
    {
      forall k :: 0 <= k < |rand| ==> 0.0 <= rand[k] < 1.0
    }

    /** Nothing on the board is revealed. */
    ghost predicate Concealed()
      requires Shape()
      reads display
    {
      forall x, y :: 0 <= x < width && 0 <= y < height ==> display[x, y] < 0
    }

    /** `flags` plus the flags on the board is the mine count. */
    ghost predicate FlagBook()
      requires Shape()
      reads this`flags, display
    {
      flags + |Flagged()| == mines
    }

    // ---- construction --------------------------------------------------------------------

    /** new Grid(options) with initializeGrid: all cells empty, hidden and unmarked. */
    constructor (w: nat, h: nat, m: nat, random: seq<real>)
      requires forall k :: 0 <= k < |random| ==> 0.0 <= random[k] < 1.0
      ensures Valid() && FlagBook()
      ensures width == w && height == h && mines == m
      ensures fresh(master) && fresh(display) && fresh(periphery)
      ensures flags == m && squaresLeft == w * h && firstPop && !gameOver && !gameWin
      ensures rand == random
      ensures Hidden() == HiddenUnflagged() == AllCells(w, h) && Flagged() == {}
      ensures forall x, y :: 0 <= x < w && 0 <= y < h ==>
        master[x, y] == 0 && display[x, y] == HIDDEN && periphery[x, y] == 0
    {
      width, height, mines := w, h, m;
      master := new int[w, h]((x, y) => 0);
      display := new int[w, h]((x, y) => HIDDEN);
      periphery := new int[w, h]((x, y) => 0);
      flags := m;
      squaresLeft := w * h;
      firstPop := true;
      gameOver, gameWin := false, false;
      rand := random;
      new;
      assert Hidden() == AllCells(w, h);
      assert HiddenUnflagged() == AllCells(w, h);
      CellsCard(w, h);
      assert MineCells() == {};
      assert Flagged() == {};
      forall x, y | 0 <= x < w && 0 <= y < h ensures AdjMines(x, y) == 0 {
        CountInEmpty(Neighbors(x, y));
      }
    }

    // ---- mine placement ---------------------------------------------------------------------

    /** isValidMineLoc: the drawn cell is outside the 3x3 block around the first pop. */
    method IsValidMineLoc(x: int, y: int, notX: int, notY: int) returns (isValid: bool)
      ensures isValid <==> !InBlock((notX, notY), (x, y))
    {
      isValid := true;
      var block := Square(notX, notY);
      for k := 0 to |block|
        invariant isValid <==> (x, y) !in block[..k]
      {
        if x == block[k].0 && y == block[k].1 {
          isValid := false;
        }
      }
      assert block[..|block|] == block;
    }

    method SetMasterMine(x: int, y: int)
      requires Shape()
      requires !IsMineMaster(x, y)
      modifies master
      ensures IsInBounds(x, y) ==> master[x, y] == MINE
      ensures forall i, j :: 0 <= i < width && 0 <= j < height && (i, j) != (x, y) ==>
        master[i, j] == old(master[i, j])
      ensures MineCells() == old(MineCells()) + (if IsInBounds(x, y) then {(x, y)} else {})
      ensures IsInBounds(x, y) ==> (x, y) !in old(MineCells())
    {
      if IsInBounds(x, y) {
        master[x, y] := MINE;
      }
    }

    /** incrementIndicator: an empty or indicator cell gains one; mines and cells off the
        board are left alone. */
    method IncrementIndicator(x: int, y: int)
      requires Shape()
      modifies master
      ensures old(IsEmptyMaster(x, y) || IsIndicatorMaster(x, y)) ==> master[x, y] == old(master[x, y]) + 1
      ensures forall i, j :: 0 <= i < width && 0 <= j < height && (i, j) != (x, y) ==>
        master[i, j] == old(master[i, j])
      ensures !old(IsEmptyMaster(x, y) || IsIndicatorMaster(x, y)) ==> IsInBounds(x, y) ==>
        master[x, y] == old(master[x, y])
    {
      if IsIndicatorMaster(x, y) || IsEmptyMaster(x, y) {
        master[x, y] := master[x, y] + 1;
      }
    }

    /** The neighbour loop of setMine: every in-bounds non-mine neighbour gains one. */
    method IncrementNeighbors(x: int, y: int)
      requires Shape()
      requires forall i, j :: 0 <= i < width && 0 <= j < height && Adjacent((x, y), (i, j)) ==>
        master[i, j] == MINE || 0 <= master[i, j] <= 8
      modifies master
      ensures MineCells() == old(MineCells())
      ensures forall i, j :: 0 <= i < width && 0 <= j < height ==>
        master[i, j] == (if old(master[i, j]) == MINE then MINE
                         else old(master[i, j]) + (if Adjacent((x, y), (i, j)) then 1 else 0))
    {
      ghost var M0 := MasterLayer();
      ghost var seen: set<Cell> := {};
      var nb := Neighbors(x, y);
      for k := 0 to |nb|
        invariant forall q :: 0 <= q < k ==> nb[q] in seen
        invariant forall q :: k <= q < |nb| ==> nb[q] !in seen
        invariant forall c :: c in seen ==> c in nb
        invariant forall i, j :: 0 <= i < width && 0 <= j < height ==>
          master[i, j] == Bumped(M0[(i, j)], (i, j) in seen)
      {
        BumpStep(nb[k], seen, M0);
        seen := seen + {nb[k]};
      }
      forall i, j | 0 <= i < width && 0 <= j < height
        ensures master[i, j] == (if old(master[i, j]) == MINE then MINE
                                 else old(master[i, j]) + (if Adjacent((x, y), (i, j)) then 1 else 0))
        ensures master[i, j] == MINE <==> old(master[i, j]) == MINE
      {
        assert M0[(i, j)] == old(master[i, j]);
        if Adjacent((x, y), (i, j)) {
          var q :| 0 <= q < |nb| && nb[q] == (i, j);
        }
      }
    }

    /** One step of setMine's neighbour loop: the neighbour c gains one over layer M0,
        given the neighbours seen already have. */
    method BumpStep(c: Cell, ghost seen: set<Cell>, ghost M0: Layer)
      requires Shape() && OverBoard(M0) && c !in seen
      requires IsInBounds(c.0, c.1) ==> M0[c] == MINE || 0 <= M0[c] <= 8
      requires forall i, j :: 0 <= i < width && 0 <= j < height ==>
        master[i, j] == Bumped(M0[(i, j)], (i, j) in seen)
      modifies master
      ensures forall i, j :: 0 <= i < width && 0 <= j < height ==>
        master[i, j] == Bumped(M0[(i, j)], (i, j) in seen + {c})
    {
      IncrementIndicator(c.0, c.1);
    }

    /** setMine: the cell becomes a mine and each neighbour that is not a mine gains one,
        so every non-mine cell still counts its adjacent mines. */
    method SetMine(x: int, y: int)
      requires Shape() && Truthful()
      requires IsInBounds(x, y) && !IsMineMaster(x, y)
      modifies master
      ensures Truthful()
      ensures MineCells() == old(MineCells()) + {(x, y)}
      ensures (x, y) !in old(MineCells())
      ensures forall i, j :: 0 <= i < width && 0 <= j < height ==>
        master[i, j] == (if (i, j) == (x, y) || old(master[i, j]) == MINE then MINE
                         else old(master[i, j]) + (if Adjacent((x, y), (i, j)) then 1 else 0))
    {
      ghost var m0 := MineCells();
      forall i, j | 0 <= i < width && 0 <= j < height
        ensures master[i, j] == MINE || 0 <= master[i, j] <= 8
      {
        assert master[i, j] == MINE || master[i, j] == AdjMines(i, j);
      }
      SetMasterMine(x, y);
      label Placed:
      IncrementNeighbors(x, y);
      forall i, j | 0 <= i < width && 0 <= j < height
        ensures master[i, j] == (if (i, j) == (x, y) || old(master[i, j]) == MINE then MINE
                                 else old(master[i, j]) + (if Adjacent((x, y), (i, j)) then 1 else 0))
      {
        if (i, j) != (x, y) {
          assert old@Placed(master[i, j]) == old(master[i, j]);
        }
      }
      forall i, j | 0 <= i < width && 0 <= j < height && master[i, j] != MINE
        ensures master[i, j] == CountIn(Neighbors(i, j), m0) + (if Adjacent((x, y), (i, j)) then 1 else 0)
      {
        assert old(master[i, j]) == MINE || old(master[i, j]) == old(AdjMines(i, j));
      }
      MinePlaced(x, y, m0);
    }

    /** After a new mine at (x, y), cells that count their old mines plus one where adjacent
        count the new mine set. */
    lemma MinePlaced(x: int, y: int, m0: set<Cell>)
      requires Shape() && IsInBounds(x, y)
      requires (x, y) !in m0 && MineCells() == m0 + {(x, y)}
      requires forall i, j :: 0 <= i < width && 0 <= j < height && master[i, j] != MINE ==>
        master[i, j] == CountIn(Neighbors(i, j), m0) + (if Adjacent((x, y), (i, j)) then 1 else 0)
      ensures Truthful()
    {
      forall i, j | 0 <= i < width && 0 <= j < height && master[i, j] != MINE
        ensures master[i, j] == AdjMines(i, j)
      {
        MineCount(Neighbors(i, j), m0, (x, y), Adjacent((x, y), (i, j)));
      }
    }

    /** The two Math.random() draws of addMine, scaled to a column and a row. */
    method DrawCell() returns (x: int, y: int)
      requires RandOK() && |rand| >= 2
      modifies this`rand
      ensures RandOK() && rand == old(rand[2..])
      ensures x == Scale(old(rand[0]), width) && y == Scale(old(rand[1]), height)
      ensures width > 0 && height > 0 ==> 0 <= x < width && 0 <= y < height
    {
      x := Scale(rand[0], width);
      y := Scale(rand[1], height);
      rand := rand[2..];
    }

    /** addMine: draw cells from the random stream until one lies outside the excluded
        block and is not already a mine, and make it a mine. Running out of random values
        ends the search without a mine. */
    method AddMine(notX: int, notY: int) returns (placed: bool, ghost p: Cell)
      requires Shape() && RandOK() && Truthful() && width > 0 && height > 0
      modifies this`rand, master
      ensures RandOK() && Truthful()
      ensures |rand| <= |old(rand)|
      ensures placed ==>
        InBounds(width, height, p) && !InBlock((notX, notY), p) &&
        p !in old(MineCells()) && MineCells() == old(MineCells()) + {p}
      ensures !placed ==> MineCells() == old(MineCells()) && |rand| < 2
      decreases |rand|
    {
      if |rand| < 2 {
        return false, (0, 0);
      }
      var x, y := DrawCell();
      var isValid := IsValidMineLoc(x, y, notX, notY);
      if isValid && !IsMineMaster(x, y) {
        SetMine(x, y);
        placed, p := true, (x, y);
      } else {
        placed, p := AddMine(notX, notY);
      }
    }

    /** generateMines: one addMine per mine. */
    method GenerateMines(notX: int, notY: int) returns (ghost placed: nat)
      requires Shape() && RandOK() && Truthful() && width > 0 && height > 0
      requires forall m :: m in MineCells() ==> !InBlock((notX, notY), m)
      modifies this`rand, master
      ensures RandOK() && Truthful()
      ensures forall m :: m in MineCells() ==> !InBlock((notX, notY), m)
      ensures placed <= mines
      ensures |MineCells()| == |old(MineCells())| + placed
      ensures placed < mines ==> |rand| < 2
    {
      placed := 0;
      for i := 0 to mines
        invariant RandOK() && Truthful()
        invariant forall m :: m in MineCells() ==> !InBlock((notX, notY), m)
        invariant placed <= i
        invariant placed < i ==> |rand| < 2
        invariant |MineCells()| == |old(MineCells())| + placed
      {
        var ok;
        ghost var p;
        ok, p := AddMine(notX, notY);
        if ok {
          placed := placed + 1;
        }
      }
    }

    // ---- revealing -----------------------------------------------------------------------

    /** No mine lies in the 3x3 block around (x, y). */
    ghost predicate BlockFree(x: int, y: int)
      requires Shape()
      reads master
    {
      forall m :: m in MineCells() ==> !InBlock((x, y), m)
    }

    /** checkFirstPop: the first pop lays the mines around a safe block and closes the
        opening phase; later pops change nothing here. */
    method CheckFirstPop(x: int, y: int)
      requires Valid() && Truthful() && IsInBounds(x, y)
      modifies this`rand, this`firstPop, master
      ensures Valid() && Truthful() && !firstPop
      ensures old(firstPop) ==> BlockFree(x, y) && Concealed()
      ensures old(firstPop) ==> |MineCells()| == mines || |rand| < 2
      ensures !old(firstPop) ==>
        rand == old(rand) &&
        forall i, j :: 0 <= i < width && 0 <= j < height ==> master[i, j] == old(master[i, j])
    {
      if firstPop {
        assert MineCells() == {};
        ghost var placed := GenerateMines(x, y);
        firstPop := false;
      }
    }

    /** setPopped: the cell shows its ground truth and one fewer square is left. */
    method SetPopped(x: int, y: int)
      requires Valid() && !firstPop && IsHiddenUnflagged(x, y) && master[x, y] >= 0
      modifies this`squaresLeft, display
      ensures Valid()
      ensures squaresLeft == old(squaresLeft) - 1
      ensures display[x, y] == master[x, y] && old(display[x, y]) == HIDDEN
      ensures forall i, j :: 0 <= i < width && 0 <= j < height && (i, j) != (x, y) ==>
        display[i, j] == old(display[i, j])
      ensures Hidden() == old(Hidden()) - {(x, y)} && (x, y) in old(Hidden())
      ensures HiddenUnflagged() == old(HiddenUnflagged()) - {(x, y)}
    {
      ghost var h := Hidden();
      assert (x, y) in h;
      display[x, y] := master[x, y];
      squaresLeft := squaresLeft - 1;
      assert Hidden() == h - {(x, y)};
    }

    /** Every in-bounds neighbour of (x, y) is revealed or flagged. */
    ghost predicate SettledAround(x: int, y: int)
      requires Shape()
      reads display
    {
      forall k :: 0 <= k < 8 && IsInBounds(Neighbors(x, y)[k].0, Neighbors(x, y)[k].1) ==>
        display[Neighbors(x, y)[k].0, Neighbors(x, y)[k].1] != HIDDEN
    }

    /** pop: a hidden, unflagged, in-bounds cell is revealed, the mines being laid first if
        this is the opening move; any other cell is left alone. */
    method Pop(x: int, y: int)
      requires Valid() && Truthful()
      modifies this`squaresLeft, this`firstPop, this`gameOver, this`gameWin, this`rand, master, display
      ensures Valid() && Truthful()
      ensures !old(IsHiddenUnflagged(x, y)) ==>
        squaresLeft == old(squaresLeft) && firstPop == old(firstPop) && rand == old(rand) &&
        gameOver == old(gameOver) && gameWin == old(gameWin) &&
        forall i, j :: 0 <= i < width && 0 <= j < height ==>
          display[i, j] == old(display[i, j]) && master[i, j] == old(master[i, j])
      ensures old(IsHiddenUnflagged(x, y)) ==> IsVisible(x, y) && !firstPop
      ensures old(IsHiddenUnflagged(x, y)) && IsEmptyMaster(x, y) ==> display[x, y] == 0 && SettledAround(x, y)
      ensures old(IsHiddenUnflagged(x, y)) && !IsEmptyMaster(x, y) ==>
        EndChecked(x, y, old(squaresLeft), old(gameOver), old(gameWin))
      ensures old(IsHiddenUnflagged(x, y) && firstPop) ==> BlockFree(x, y)
      ensures !old(firstPop) ==>
        rand == old(rand) && firstPop == old(firstPop) &&
        forall i, j :: 0 <= i < width && 0 <= j < height ==> master[i, j] == old(master[i, j])
      ensures RevealStep(old(HiddenUnflagged()), old(squaresLeft), old(gameOver), old(gameWin))
      ensures forall i, j :: 0 <= i < width && 0 <= j < height ==>
        display[i, j] == old(display[i, j]) || (old(display[i, j]) == HIDDEN && display[i, j] == master[i, j])
      ensures forall i, j :: 0 <= i < width && 0 <= j < height && old(display[i, j]) == HIDDEN && display[i, j] == 0 ==>
        SettledAround(i, j)
      ensures forall i, j :: 0 <= i < width && 0 <= j < height && old(display[i, j]) == HIDDEN && display[i, j] == MINE ==>
        gameOver
      ensures old(IsHiddenUnflagged(x, y) && firstPop) ==> |MineCells()| == mines || |rand| < 2
    {
      if IsHiddenUnflagged(x, y) {
        CheckFirstPop(x, y);
        RevealCell(x, y);
      }
    }

    /** pop once the mines are laid: checkFirstPop finds firstPop false and does nothing, so
        only display and the counters change. */
    method PopLater(x: int, y: int)
      requires Valid() && Truthful() && !firstPop
      modifies this`squaresLeft, this`gameOver, this`gameWin, display
      ensures Valid() && !firstPop
      ensures !old(IsHiddenUnflagged(x, y)) ==>
        squaresLeft == old(squaresLeft) && gameOver == old(gameOver) && gameWin == old(gameWin) &&
        forall i, j :: 0 <= i < width && 0 <= j < height ==> display[i, j] == old(display[i, j])
      ensures old(IsHiddenUnflagged(x, y)) ==> IsVisible(x, y)
      ensures old(IsHiddenUnflagged(x, y)) && IsEmptyMaster(x, y) ==> display[x, y] == 0 && SettledAround(x, y)
      ensures old(IsHiddenUnflagged(x, y)) && !IsEmptyMaster(x, y) ==>
        EndChecked(x, y, old(squaresLeft), old(gameOver), old(gameWin))
      ensures RevealStep(old(HiddenUnflagged()), old(squaresLeft), old(gameOver), old(gameWin))
      ensures forall i, j :: 0 <= i < width && 0 <= j < height ==>
        display[i, j] == old(display[i, j]) || (old(display[i, j]) == HIDDEN && display[i, j] == master[i, j])
      ensures forall i, j :: 0 <= i < width && 0 <= j < height && old(display[i, j]) == HIDDEN && display[i, j] == 0 ==>
        SettledAround(i, j)
      ensures forall i, j :: 0 <= i < width && 0 <= j < height && old(display[i, j]) == HIDDEN && display[i, j] == MINE ==>
        gameOver
      decreases |HiddenUnflagged()|, 3
    {
      if IsHiddenUnflagged(x, y) {
        RevealCell(x, y);
      }
    }

    /** The rest of pop on a hidden unflagged cell: setPopped, then the flood into the
        neighbours of an empty cell, game over on a mine, or the win check. setPopped does
        not touch master, so the branch can be chosen before it. */
    method RevealCell(x: int, y: int)
      requires Valid() && Truthful() && !firstPop && IsHiddenUnflagged(x, y)
      modifies this`squaresLeft, this`gameOver, this`gameWin, display
      ensures Valid() && IsVisible(x, y)
      ensures IsEmptyMaster(x, y) ==> display[x, y] == 0 && SettledAround(x, y)
      ensures !IsEmptyMaster(x, y) ==> EndChecked(x, y, old(squaresLeft), old(gameOver), old(gameWin))
      ensures RevealStep(old(HiddenUnflagged()), old(squaresLeft), old(gameOver), old(gameWin))
      ensures forall i, j :: 0 <= i < width && 0 <= j < height ==>
        display[i, j] == old(display[i, j]) || (old(display[i, j]) == HIDDEN && display[i, j] == master[i, j])
      ensures forall i, j :: 0 <= i < width && 0 <= j < height && old(display[i, j]) == HIDDEN && display[i, j] == 0 ==>
        SettledAround(i, j)
      ensures forall i, j :: 0 <= i < width && 0 <= j < height && old(display[i, j]) == HIDDEN && display[i, j] == MINE ==>
        gameOver
      decreases |HiddenUnflagged()|, 2
    {
      if IsEmptyMaster(x, y) {
        RevealEmpty(x, y);
      } else {
        RevealOther(x, y);
      }
    }

    /** setPopped on an empty cell, then the flood. */
    method RevealEmpty(x: int, y: int)
      requires Valid() && Truthful() && !firstPop && IsHiddenUnflagged(x, y) && IsEmptyMaster(x, y)
      modifies this`squaresLeft, this`gameOver, this`gameWin, display
      ensures Valid() && IsVisible(x, y)
      ensures display[x, y] == 0 && SettledAround(x, y)
      ensures RevealStep(old(HiddenUnflagged()), old(squaresLeft), old(gameOver), old(gameWin))
      ensures forall i, j :: 0 <= i < width && 0 <= j < height ==>
        display[i, j] == old(display[i, j]) || (old(display[i, j]) == HIDDEN && display[i, j] == master[i, j])
      ensures forall i, j :: 0 <= i < width && 0 <= j < height && old(display[i, j]) == HIDDEN && display[i, j] == 0 ==>
        SettledAround(i, j)
      ensures forall i, j :: 0 <= i < width && 0 <= j < height && old(display[i, j]) == HIDDEN && display[i, j] == MINE ==>
        gameOver
      decreases |HiddenUnflagged()|, 1
    {
      SetPopped(x, y);
      assert (x, y) in old(HiddenUnflagged());
      label Popped:
      Flood(x, y);
      forall i, j | 0 <= i < width && 0 <= j < height
        ensures display[i, j] == old(display[i, j]) || (old(display[i, j]) == HIDDEN && display[i, j] == master[i, j])
      {
        if (i, j) != (x, y) {
          assert old@Popped(display[i, j]) == old(display[i, j]);
        }
      }
    }

    /** setPopped on a mine or an indicator, then the game-over and win checks. */
    method RevealOther(x: int, y: int)
      requires Valid() && IsHiddenUnflagged(x, y) && 0 < master[x, y]
      modifies this`squaresLeft, this`gameOver, this`gameWin, display
      ensures Valid() && IsVisible(x, y)
      ensures EndChecked(x, y, old(squaresLeft), old(gameOver), old(gameWin))
      ensures RevealStep(old(HiddenUnflagged()), old(squaresLeft), old(gameOver), old(gameWin))
      ensures forall i, j :: 0 <= i < width && 0 <= j < height ==>
        display[i, j] == old(display[i, j]) || (old(display[i, j]) == HIDDEN && display[i, j] == master[i, j])
      ensures forall i, j :: 0 <= i < width && 0 <= j < height && old(display[i, j]) == HIDDEN && display[i, j] == 0 ==>
        SettledAround(i, j)
      ensures forall i, j :: 0 <= i < width && 0 <= j < height && old(display[i, j]) == HIDDEN && display[i, j] == MINE ==>
        gameOver
    {
      SetPopped(x, y);
      assert (x, y) in old(HiddenUnflagged());
      label Popped:
      EndCheck(x, y);
      forall i, j | 0 <= i < width && 0 <= j < height && (i, j) != (x, y)
        ensures display[i, j] == old(display[i, j])
      {
        assert display[i, j] == old@Popped(display[i, j]);
      }
    }

    /** What pop leaves on a cell that is not empty, from the counters left, over and win:
        one square fewer is left, and endCheck's cases: a mine ends the game, otherwise the
        game is won when as many squares as mines are left, and nothing else changes. */
    ghost predicate EndChecked(x: int, y: int, left: int, over: bool, win: bool)
      requires Shape()
      reads this`squaresLeft, this`gameOver, this`gameWin, master
    {
      squaresLeft == left - 1 &&
      (IsMineMaster(x, y) ==> gameOver && gameWin == win) &&
      (!IsMineMaster(x, y) && squaresLeft == mines ==> gameOver && gameWin) &&
      (!IsMineMaster(x, y) && squaresLeft != mines ==> gameOver == over && gameWin == win)
    }

    /** The last branches of pop on a cell that is not empty: a mine ends the game, and
        when only as many squares as mines are left the game is won. */
    method EndCheck(x: int, y: int)
      requires Shape()
      modifies this`gameOver, this`gameWin
      ensures IsMineMaster(x, y) ==> gameOver && gameWin == old(gameWin)
      ensures !IsMineMaster(x, y) && squaresLeft == mines ==> gameOver && gameWin
      ensures !IsMineMaster(x, y) && squaresLeft != mines ==>
        gameOver == old(gameOver) && gameWin == old(gameWin)
    {
      if IsMineMaster(x, y) {
        gameOver := true;
      } else if squaresLeft == mines {
        gameOver := true;
        gameWin := true;
      }
    }

    /** The counters only move one way during a reveal: fewer hidden cells, and the game
        over and win flags once set stay set, the win only when no more squares than mines
        are left; the game ends only by the win or by a mine shown on a cell that was hidden
        and unflagged before. */
    ghost predicate RevealStep(hu: set<Cell>, left: int, over: bool, win: bool)
      requires Shape()
      reads this, display
    {
      HiddenUnflagged() <= hu && squaresLeft <= left &&
      (over ==> gameOver) && (win ==> gameWin) &&
      (gameWin && !win ==> gameOver && squaresLeft <= mines) &&
      (gameOver && !over ==> gameWin || MineRevealedIn(hu))
    }

    /** One of the cells hu shows a mine. */
    ghost predicate MineRevealedIn(hu: set<Cell>)
      requires Shape()
      reads display
    {
      exists c :: c in hu && 0 <= c.0 < width && 0 <= c.1 < height && display[c.0, c.1] == MINE
    }

    /** The flood loop of pop: pop every neighbour of a just revealed empty cell. */
    method Flood(x: int, y: int)
      requires Valid() && Truthful() && !firstPop
      requires IsInBounds(x, y) && display[x, y] == 0
      modifies this`squaresLeft, this`gameOver, this`gameWin, display
      ensures Valid() && display[x, y] == 0
      ensures RevealStep(old(HiddenUnflagged()), old(squaresLeft), old(gameOver), old(gameWin))
      ensures forall i, j :: 0 <= i < width && 0 <= j < height ==>
        display[i, j] == old(display[i, j]) || (old(display[i, j]) == HIDDEN && display[i, j] == master[i, j])
      ensures forall i, j :: 0 <= i < width && 0 <= j < height && old(display[i, j]) == HIDDEN && display[i, j] == 0 ==>
        SettledAround(i, j)
      ensures SettledAround(x, y)
      ensures forall i, j :: 0 <= i < width && 0 <= j < height && old(display[i, j]) == HIDDEN && display[i, j] == MINE ==>
        gameOver
      decreases |HiddenUnflagged()| + 1, 0
    {
      var nb := Neighbors(x, y);
      for k := 0 to |nb|
        invariant Valid() && display[x, y] == 0
        invariant RevealStep(old(HiddenUnflagged()), old(squaresLeft), old(gameOver), old(gameWin))
        invariant forall i, j :: 0 <= i < width && 0 <= j < height ==>
          display[i, j] == old(display[i, j]) || (old(display[i, j]) == HIDDEN && display[i, j] == master[i, j])
        invariant forall i, j :: 0 <= i < width && 0 <= j < height && old(display[i, j]) == HIDDEN && display[i, j] == 0 ==>
          SettledAround(i, j)
        invariant forall q :: 0 <= q < k && IsInBounds(nb[q].0, nb[q].1) ==> display[nb[q].0, nb[q].1] != HIDDEN
        invariant forall i, j :: 0 <= i < width && 0 <= j < height && old(display[i, j]) == HIDDEN && display[i, j] == MINE ==>
          gameOver
      {
        SubsetCard(HiddenUnflagged(), old(HiddenUnflagged()));
        PopLater(nb[k].0, nb[k].1);
      }
    }

    // ---- flags ---------------------------------------------------------------------------

    method SetFlagged(x: int, y: int)
      requires Shape() && IsHidden(x, y)
      modifies this`flags, display
      ensures flags == old(flags) - 1
      ensures IsInBounds(x, y) ==> display[x, y] == FLAGGED
      ensures forall i, j :: 0 <= i < width && 0 <= j < height && (i, j) != (x, y) ==>
        display[i, j] == old(display[i, j])
      ensures IsInBounds(x, y) ==>
        Flagged() == old(Flagged()) + {(x, y)} && HiddenUnflagged() == old(HiddenUnflagged()) - {(x, y)}
      ensures !IsInBounds(x, y) ==> Flagged() == old(Flagged()) && HiddenUnflagged() == old(HiddenUnflagged())
      ensures Hidden() == old(Hidden())
      ensures old(Shown()) ==> Shown()
      ensures old(firstPop ==> Untouched()) ==> (firstPop ==> Untouched())
    {
      if IsInBounds(x, y) {
        display[x, y] := FLAGGED;
      }
      flags := flags - 1;
    }

    method SetUnflagged(x: int, y: int)
      requires Shape() && IsHidden(x, y)
      modifies this`flags, display
      ensures flags == old(flags) + 1
      ensures IsInBounds(x, y) ==> display[x, y] == HIDDEN
      ensures forall i, j :: 0 <= i < width && 0 <= j < height && (i, j) != (x, y) ==>
        display[i, j] == old(display[i, j])
      ensures IsInBounds(x, y) ==>
        Flagged() == old(Flagged()) - {(x, y)} && HiddenUnflagged() == old(HiddenUnflagged()) + {(x, y)}
      ensures !IsInBounds(x, y) ==> Flagged() == old(Flagged()) && HiddenUnflagged() == old(HiddenUnflagged())
      ensures Hidden() == old(Hidden())
      ensures old(Shown()) ==> Shown()
      ensures old(firstPop ==> Untouched()) ==> (firstPop ==> Untouched())
    {
      if IsInBounds(x, y) {
        display[x, y] := HIDDEN;
      }
      flags := flags + 1;
    }

    /** flag: toggles a hidden cell between flagged and unflagged. A revealed cell is left
        alone. Out of bounds the cell counts as hidden and unflagged, so only the counter
        moves, down by one. */
    method Flag(x: int, y: int)
      requires Valid()
      modifies this`flags, display
      ensures Valid()
      ensures forall i, j :: 0 <= i < width && 0 <= j < height && (i, j) != (x, y) ==>
        display[i, j] == old(display[i, j])
      ensures old(IsVisible(x, y)) ==> display[x, y] == old(display[x, y]) && flags == old(flags)
      ensures old(IsHiddenUnflagged(x, y)) ==> display[x, y] == FLAGGED && flags == old(flags) - 1
      ensures old(IsFlagged(x, y)) ==> display[x, y] == HIDDEN && flags == old(flags) + 1
      ensures !IsInBounds(x, y) ==> flags == old(flags) - 1
      ensures IsInBounds(x, y) ==> (old(FlagBook()) ==> FlagBook())
      ensures Hidden() == old(Hidden())
      ensures old(IsHiddenUnflagged(x, y)) ==>
        Flagged() == old(Flagged()) + {(x, y)} && HiddenUnflagged() == old(HiddenUnflagged()) - {(x, y)}
      ensures old(IsFlagged(x, y)) ==>
        Flagged() == old(Flagged()) - {(x, y)} && HiddenUnflagged() == old(HiddenUnflagged()) + {(x, y)}
      ensures !old(IsHidden(x, y)) || !IsInBounds(x, y) ==>
        Flagged() == old(Flagged()) && HiddenUnflagged() == old(HiddenUnflagged())
    {
      if !IsHidden(x, y) {
        return;
      }
      if IsFlagged(x, y) {
        SetUnflagged(x, y);
      } else {
        SetFlagged(x, y);
      }
    }

    // ---- the neighbour operations of the basic solver ------------------------------------

    /** The body of flagAdjacentSquares' loop for one neighbour c. */
    method FlagIfHiddenUnflagged(c: Cell) returns (flagged: bool)
      requires Valid()
      modifies this`flags, display
      ensures Valid()
      ensures flagged <==> c in old(HiddenUnflagged())
      ensures HiddenUnflagged() == old(HiddenUnflagged()) - {c}
      ensures Hidden() == old(Hidden())
      ensures forall i, j :: 0 <= i < width && 0 <= j < height ==>
        display[i, j] == (if (i, j) == c && flagged then FLAGGED else old(display[i, j]))
      ensures flags == old(flags) - (if flagged then 1 else 0)
      ensures old(FlagBook()) ==> FlagBook()
      ensures !flagged ==> DisplayLayer() == old(DisplayLayer())
    {
      flagged := IsHiddenUnflagged(c.0, c.1);
      if flagged {
        Flag(c.0, c.1);
      }
    }

    /** flagAdjacentSquares: flag every hidden unflagged neighbour; report whether there
        was one. */
    method FlagAdjacentSquares(x: int, y: int) returns (moveMade: bool)
      requires Valid()
      modifies this`flags, display
      ensures Valid()
      ensures moveMade <==> old(HiddenUnflagged()) * Elems(Neighbors(x, y)) != {}
      ensures HiddenUnflagged() == old(HiddenUnflagged()) - Elems(Neighbors(x, y))
      ensures Hidden() == old(Hidden())
      ensures forall i, j :: 0 <= i < width && 0 <= j < height ==>
        display[i, j] == (if (i, j) in old(HiddenUnflagged()) && Adjacent((x, y), (i, j)) then FLAGGED
                          else old(display[i, j]))
      ensures flags == old(flags) - CountIn(Neighbors(x, y), old(HiddenUnflagged()))
      ensures old(FlagBook()) ==> FlagBook()
      ensures moveMade <==> HiddenUnflagged() != old(HiddenUnflagged())
      ensures !moveMade ==> DisplayLayer() == old(DisplayLayer()) && flags == old(flags)
    {
      moveMade := false;
      ghost var hu0, h0, D0, f0, book0 := HiddenUnflagged(), Hidden(), DisplayLayer(), flags, FlagBook();
      var nb := Neighbors(x, y);
      for k := 0 to |nb|
        invariant Valid() && FlagLoopAt(nb, k, moveMade, hu0, h0, D0, f0, book0)
      {
        moveMade := FlagStep(nb, k, moveMade, hu0, h0, D0, f0, book0);
      }
      assert nb[..|nb|] == nb;
      forall i, j | 0 <= i < width && 0 <= j < height
        ensures display[i, j] == (if (i, j) in hu0 && Adjacent((x, y), (i, j)) then FLAGGED
                                  else old(display[i, j]))
      {
        assert D0[(i, j)] == old(display[i, j]);
      }
      ShrunkBy(hu0, Elems(nb), HiddenUnflagged());
    }

    /** What flagAdjacentSquares' loop keeps after the first k neighbours of nb, from the
        hidden unflagged cells hu0, hidden cells h0, display layer D0 and flag count f0,
        book0 saying whether the flag count was right: exactly the hidden unflagged cells
        among those k are flagged, one flag fewer being left for each; a move was made
        exactly when one was, and otherwise nothing has changed. */
    ghost predicate FlagLoopAt(nb: seq<Cell>, k: int, moveMade: bool, hu0: set<Cell>, h0: set<Cell>,
                               D0: Layer, f0: int, book0: bool)
      requires Shape()
      reads this`flags, display
    {
      0 <= k <= |nb| &&
      Hidden() == h0 && HiddenUnflagged() == hu0 - Elems(nb[..k]) &&
      (forall i, j :: 0 <= i < width && 0 <= j < height ==>
        (i, j) in D0 &&
        display[i, j] == (if (i, j) in hu0 && (i, j) in nb[..k] then FLAGGED else D0[(i, j)])) &&
      flags == f0 - CountIn(nb[..k], hu0) &&
      (book0 ==> FlagBook()) &&
      (moveMade <==> HiddenUnflagged() != hu0) &&
      (!moveMade ==> DisplayLayer() == D0 && flags == f0)
    }

    /** One step of flagAdjacentSquares' loop, over the neighbour nb[k]. */
    method FlagStep(nb: seq<Cell>, k: int, moveMade: bool, ghost hu0: set<Cell>, ghost h0: set<Cell>,
                    ghost D0: Layer, ghost f0: int, ghost book0: bool)
      returns (moveMade': bool)
      requires Valid() && Distinct(nb) && k < |nb|
      requires FlagLoopAt(nb, k, moveMade, hu0, h0, D0, f0, book0)
      modifies this`flags, display
      ensures Valid() && FlagLoopAt(nb, k + 1, moveMade', hu0, h0, D0, f0, book0)
    {
      var c := nb[k];
      assert c !in nb[..k];
      assert nb[..k + 1] == nb[..k] + [c];
      assert Elems(nb[..k + 1]) == Elems(nb[..k]) + {c};
      CountInSnoc(nb, hu0, k);
      assert c in HiddenUnflagged() <==> c in hu0;
      label Before:
      var flagged := FlagIfHiddenUnflagged(c);
      moveMade' := moveMade || flagged;
      forall i, j | 0 <= i < width && 0 <= j < height
        ensures display[i, j] == (if (i, j) in hu0 && (i, j) in nb[..k + 1] then FLAGGED else D0[(i, j)])
      {
        if (i, j) != c {
          assert display[i, j] == old@Before(display[i, j]);
        }
      }
      if flagged {
        assert c in hu0 && c !in HiddenUnflagged();
      }
    }

    /** The counters and flags a pop may change. */
    ghost function PopScalars(): (int, bool, seq<real>, bool, bool)
      reads this`squaresLeft, this`firstPop, this`rand, this`gameOver, this`gameWin
    {
      (squaresLeft, firstPop, rand, gameOver, gameWin)
    }

    /** popAdjacentSquares: pop every hidden unflagged neighbour; report whether there was
        one. Popping one neighbour may flood-reveal later ones, which are then skipped. */
    method PopAdjacentSquares(x: int, y: int) returns (moveMade: bool)
      requires Valid() && Truthful()
      modifies this`squaresLeft, this`firstPop, this`gameOver, this`gameWin, this`rand, master, display
      ensures Valid() && Truthful()
      ensures moveMade <==> old(HiddenUnflagged()) * Elems(Neighbors(x, y)) != {}
      ensures HiddenUnflagged() * Elems(Neighbors(x, y)) == {}
      ensures HiddenUnflagged() <= old(HiddenUnflagged())
      ensures forall i, j :: 0 <= i < width && 0 <= j < height ==>
        display[i, j] == old(display[i, j]) || (old(display[i, j]) == HIDDEN && display[i, j] == master[i, j])
      ensures !moveMade ==>
        squaresLeft == old(squaresLeft) && firstPop == old(firstPop) && rand == old(rand) &&
        gameOver == old(gameOver) && gameWin == old(gameWin) &&
        forall i, j :: 0 <= i < width && 0 <= j < height ==>
          display[i, j] == old(display[i, j]) && master[i, j] == old(master[i, j])
      ensures RevealedFrom(old(DisplayLayer()))
      ensures !moveMade ==>
        PopScalars() == old(PopScalars()) && DisplayLayer() == old(DisplayLayer()) &&
        MasterLayer() == old(MasterLayer())
      ensures moveMade <==> HiddenUnflagged() != old(HiddenUnflagged())
      ensures Flagged() == old(Flagged())
    {
      ghost var hu0, D0, M0, S0 := HiddenUnflagged(), DisplayLayer(), MasterLayer(), PopScalars();
      FlaggedLayer();
      var nb := Neighbors(x, y);
      ghost var w;
      moveMade, w := PopNeighbours(nb, hu0, D0, M0, S0);
      if moveMade {
        LeftBehind(hu0, HiddenUnflagged(), Elems(nb), w);
      }
      if !moveMade {
        forall i, j | 0 <= i < width && 0 <= j < height
          ensures display[i, j] == old(display[i, j]) && master[i, j] == old(master[i, j])
        {
          assert display[i, j] == D0[(i, j)] && master[i, j] == M0[(i, j)];
        }
      }
      forall i, j | 0 <= i < width && 0 <= j < height
        ensures display[i, j] == old(display[i, j]) || (old(display[i, j]) == HIDDEN && display[i, j] == master[i, j])
      {
        assert D0[(i, j)] == old(display[i, j]);
      }
    }

    /** The loop of popAdjacentSquares over the neighbours nb, from the state hu0, D0, M0,
        S0: afterwards none of them is hidden and unflagged; a move was made exactly when one
        of them was, w being one; every changed cell was hidden and shows its ground truth. */
    method PopNeighbours(nb: seq<Cell>, ghost hu0: set<Cell>, ghost D0: Layer, ghost M0: Layer,
                         ghost S0: (int, bool, seq<real>, bool, bool))
      returns (moveMade: bool, ghost w: Cell)
      requires Valid() && Truthful()
      requires HiddenUnflagged() == hu0 && PopScalars() == S0 && DisplayLayer() == D0 && MasterLayer() == M0
      modifies this`squaresLeft, this`firstPop, this`gameOver, this`gameWin, this`rand, master, display
      ensures Valid() && Truthful() && RevealedFrom(D0)
      ensures HiddenUnflagged() <= hu0 && HiddenUnflagged() * Elems(nb) == {}
      ensures moveMade ==> w in hu0 * Elems(nb)
      ensures !moveMade ==>
        hu0 * Elems(nb) == {} && HiddenUnflagged() == hu0 &&
        PopScalars() == S0 && DisplayLayer() == D0 && MasterLayer() == M0
      ensures Flagged() == FlaggedIn(D0)
    {
      moveMade := false;
      w := (0, 0);
      ghost var seen: set<Cell> := {};
      for k := 0 to |nb|
        invariant Valid() && Truthful() && RevealedFrom(D0)
        invariant PopLoopAt(nb, k, seen, moveMade, w, hu0, D0, M0, S0)
      {
        moveMade, w := PopStep(nb, k, seen, moveMade, w, hu0, D0, M0, S0);
        seen := seen + {nb[k]};
      }
      SeenAll(nb, seen);
      FlaggedRevealed(D0);
    }

    /** What popAdjacentSquares' loop keeps after the first k neighbours of nb, seen being
        their cells, from the state hu0, D0, M0, S0: none of them is hidden and unflagged; a
        move was made exactly when one was, w being one; otherwise nothing has changed. */
    ghost predicate PopLoopAt(nb: seq<Cell>, k: int, seen: set<Cell>, moveMade: bool, w: Cell,
                              hu0: set<Cell>, D0: Layer, M0: Layer, S0: (int, bool, seq<real>, bool, bool))
      requires Shape()
      reads this, display, master
    {
      0 <= k <= |nb| &&
      (forall q :: 0 <= q < k ==> nb[q] in seen) && (forall c :: c in seen ==> c in nb) &&
      HiddenUnflagged() <= hu0 && HiddenUnflagged() * seen == {} &&
      (moveMade ==> w in hu0 && w in seen) &&
      (!moveMade ==>
        HiddenUnflagged() == hu0 && PopScalars() == S0 && DisplayLayer() == D0 && MasterLayer() == M0)
    }

    /** One step of popAdjacentSquares' loop, over the neighbour nb[k]; hu0, D0, M0 and S0
        are the state the loop started from, w a neighbour popped so far. */
    method PopStep(nb: seq<Cell>, k: nat, ghost seen: set<Cell>, moveMade: bool, ghost w: Cell,
                   ghost hu0: set<Cell>, ghost D0: Layer, ghost M0: Layer,
                   ghost S0: (int, bool, seq<real>, bool, bool))
      returns (moved: bool, ghost w': Cell)
      requires Valid() && Truthful() && RevealedFrom(D0) && k < |nb|
      requires PopLoopAt(nb, k, seen, moveMade, w, hu0, D0, M0, S0)
      modifies this`squaresLeft, this`firstPop, this`gameOver, this`gameWin, this`rand, master, display
      ensures Valid() && Truthful() && RevealedFrom(D0)
      ensures PopLoopAt(nb, k + 1, seen + {nb[k]}, moved, w', hu0, D0, M0, S0)
    {
      SeenStep(nb, k, seen);
      var c := nb[k];
      moved, w' := moveMade, w;
      if IsHiddenUnflagged(c.0, c.1) {
        PopFresh(c, D0);
        moved := true;
        if !moveMade {
          w' := c;
        }
      }
    }

    /** Popping a hidden unflagged cell keeps the board revealed from D0 and removes the
        cell from the hidden unflagged ones. */
    method PopFresh(c: Cell, ghost D0: Layer)
      requires Valid() && Truthful() && RevealedFrom(D0) && IsHiddenUnflagged(c.0, c.1)
      modifies this`squaresLeft, this`firstPop, this`gameOver, this`gameWin, this`rand, master, display
      ensures Valid() && Truthful() && RevealedFrom(D0)
      ensures HiddenUnflagged() <= old(HiddenUnflagged()) && c !in HiddenUnflagged()
    {
      label Before:
      Pop(c.0, c.1);
      forall i, j | 0 <= i < width && 0 <= j < height
        ensures (i, j) in D0 && (display[i, j] == D0[(i, j)] || (D0[(i, j)] == HIDDEN && display[i, j] == master[i, j]))
      {
        assert old@Before(RevealedFrom(D0));
        assert display[i, j] == old@Before(display[i, j]) ||
          (old@Before(display[i, j]) == HIDDEN && display[i, j] == master[i, j]);
        assert old@Before(master[i, j]) >= 0;
      }
    }

    /** numAdjacentSquares: the hidden neighbours on the board, flagged ones included. */
    method NumAdjacentSquares(x: int, y: int) returns (adjacentSquares: nat)
      requires Shape()
      ensures adjacentSquares == CountIn(Neighbors(x, y), Hidden())
    {
      adjacentSquares := 0;
      var nb := Neighbors(x, y);
      for k := 0 to |nb|
        invariant adjacentSquares == CountIn(nb[..k], Hidden())
      {
        CountInSnoc(nb, Hidden(), k);
        if IsInBounds(nb[k].0, nb[k].1) && IsHidden(nb[k].0, nb[k].1) {
          adjacentSquares := adjacentSquares + 1;
        }
      }
      assert nb[..|nb|] == nb;
    }

    /** numAdjacentFlags: the flagged neighbours. */
    method NumAdjacentFlags(x: int, y: int) returns (adjacentFlags: nat)
      requires Shape()
      ensures adjacentFlags == CountIn(Neighbors(x, y), Flagged())
    {
      adjacentFlags := 0;
      var nb := Neighbors(x, y);
      for k := 0 to |nb|
        invariant adjacentFlags == CountIn(nb[..k], Flagged())
      {
        CountInSnoc(nb, Flagged(), k);
        if IsInBounds(nb[k].0, nb[k].1) && IsFlagged(nb[k].0, nb[k].1) {
          adjacentFlags := adjacentFlags + 1;
        }
      }
      assert nb[..|nb|] == nb;
    }

    // ---- periphery regions -----------------------------------------------------------------

    /** A hidden unflagged cell with both a hidden unflagged and a revealed orthogonal
        neighbour: the frontier between what is known and what is not. */
    ghost predicate OnPeriphery(x: int, y: int)
      requires Shape()
      reads display
    {
      IsHiddenUnflagged(x, y) &&
      (exists k :: 0 <= k < 4 && IsHiddenUnflagged(Cross(x, y)[k].0, Cross(x, y)[k].1)) &&
      (exists k :: 0 <= k < 4 && IsVisible(Cross(x, y)[k].0, Cross(x, y)[k].1))
    }

    /** isPeriphery. */
    method IsPeriphery(x: int, y: int) returns (r: bool)
      requires Shape()
      ensures r <==> OnPeriphery(x, y)
    {
      var hasHidden, hasVisible := false, false;
      var cr := Cross(x, y);
      for k := 0 to 4
        invariant hasHidden <==> exists q :: 0 <= q < k && IsHiddenUnflagged(cr[q].0, cr[q].1)
        invariant hasVisible <==> exists q :: 0 <= q < k && IsVisible(cr[q].0, cr[q].1)
      {
        if IsInBounds(cr[k].0, cr[k].1) && IsHiddenUnflagged(cr[k].0, cr[k].1) {
          hasHidden := true;
        } else if IsInBounds(cr[k].0, cr[k].1) && IsVisible(cr[k].0, cr[k].1) {
          hasVisible := true;
        }
      }
      r := IsHiddenUnflagged(x, y) && hasHidden && hasVisible;
    }

    /** Hidden unflagged cells not yet marked 1: what the depth-first search may still add. */
    ghost function Unmarked(): set<Cell>
      requires Shape()
      reads display, periphery
    {
      set x, y | 0 <= x < width && 0 <= y < height && display[x, y] < 0 && display[x, y] != FLAGGED &&
        periphery[x, y] != 1 :: (x, y)
    }

    /** A region under construction: distinct hidden unflagged cells, each marked 1. */
    ghost predicate InRegion(r: seq<Cell>)
      requires Shape()
      reads display, periphery
    {
      Distinct(r) && forall k :: 0 <= k < |r| ==> IsHiddenUnflagged(r[k].0, r[k].1) && MarkIs(r[k].0, r[k].1, 1)
    }

    /** The cells marked -1: the indicators the search has checked. */
    ghost function Checked(): set<Cell>
      requires Shape()
      reads periphery
    {
      set x, y | 0 <= x < width && 0 <= y < height && periphery[x, y] == -1 :: (x, y)
    }

    /** No hidden unflagged neighbour of c lies in U; with U the unmarked cells, the search
        has reached every hidden unflagged neighbour of c. */
    ghost predicate Reaches(c: Cell, U: set<Cell>)
      requires Shape()
      reads display
    {
      forall k :: 0 <= k < 8 && IsHiddenUnflagged(Neighbors(c.0, c.1)[k].0, Neighbors(c.0, c.1)[k].1) ==>
        Neighbors(c.0, c.1)[k] !in U
    }

    /** Reaching stays true as the unmarked cells shrink. */
    lemma ReachesShrink(c: Cell, U0: set<Cell>, U1: set<Cell>)
      requires Shape() && Reaches(c, U0) && U1 <= U0
      ensures Reaches(c, U1)
    {
    }

    /** Against the mark layer P: every mark is P's, or a 1 on a hidden unflagged cell, or a
        -1 on an indicator. */
    ghost predicate GrownFrom(P: Layer)
      requires Shape()
      reads display, periphery
    {
      forall i, j :: 0 <= i < width && 0 <= j < height ==>
        (i, j) in P &&
        (periphery[i, j] == P[(i, j)] ||
         (periphery[i, j] == 1 && IsHiddenUnflagged(i, j)) || (periphery[i, j] == -1 && IsIndicator(i, j)))
    }

    /** addToPeriphery: push the cell, mark it 1, and continue through each orthogonal
        indicator not yet marked -1. The search is closed: the cell ends marked 1, each
        orthogonal indicator marked -1, and every indicator this call marks -1 has all its
        hidden unflagged neighbours marked 1. */
    method AddToPeriphery(region: seq<Cell>, x: int, y: int) returns (r: seq<Cell>)
      requires Shape() && InRegion(region)
      requires IsHiddenUnflagged(x, y) && !MarkIs(x, y, 1)
      modifies periphery
      decreases |Unmarked()|, 0
      ensures InRegion(r)
      ensures |region| < |r| && r[..|region|] == region && r[|region|] == (x, y)
      ensures Unmarked() <= old(Unmarked())
      ensures Elems(r) == Elems(region) + (old(Unmarked()) - Unmarked())
      ensures forall i, j :: 0 <= i < width && 0 <= j < height ==>
        periphery[i, j] == old(periphery[i, j]) ||
        (periphery[i, j] == 1 && IsHiddenUnflagged(i, j)) || (periphery[i, j] == -1 && IsIndicator(i, j))
      ensures MarkIs(x, y, 1)
      ensures forall k :: 0 <= k < 4 && IsIndicator(Cross(x, y)[k].0, Cross(x, y)[k].1) ==>
        MarkIs(Cross(x, y)[k].0, Cross(x, y)[k].1, -1)
      ensures forall c :: c in Checked() - old(Checked()) ==> Reaches(c, Unmarked())
    {
      ghost var u, ch, P0 := Unmarked(), Checked(), MarkLayer();
      r := PushMarked(region, x, y);
      for k := 0 to 4
        invariant CrossLoopAt(region, r, x, y, k, u, ch, P0)
      {
        SubsetCard(Unmarked(), u - {(x, y)});
        r := CrossStep(region, r, x, y, k, u, ch, P0);
      }
      forall i, j | 0 <= i < width && 0 <= j < height
        ensures periphery[i, j] == old(periphery[i, j]) ||
          (periphery[i, j] == 1 && IsHiddenUnflagged(i, j)) || (periphery[i, j] == -1 && IsIndicator(i, j))
      {
        assert P0[(i, j)] == old(periphery[i, j]);
      }
    }

    /** What addToPeriphery's cross loop keeps after the first k orthogonal cells of (x, y),
        from the unmarked cells u, checked cells ch and marks P0 it started with. */
    ghost predicate CrossLoopAt(region: seq<Cell>, r: seq<Cell>, x: int, y: int, k: int,
                                u: set<Cell>, ch: set<Cell>, P0: Layer)
      requires Shape()
      reads display, periphery
    {
      0 <= k <= 4 && InRegion(r) &&
      |region| < |r| && r[..|region|] == region && r[|region|] == (x, y) &&
      Unmarked() <= u - {(x, y)} && Elems(r) == Elems(region) + (u - Unmarked()) &&
      GrownFrom(P0) && MarkIs(x, y, 1) &&
      (forall q :: 0 <= q < k && IsIndicator(Cross(x, y)[q].0, Cross(x, y)[q].1) ==>
        MarkIs(Cross(x, y)[q].0, Cross(x, y)[q].1, -1)) &&
      (forall c :: c in Checked() - ch ==> Reaches(c, Unmarked()))
    }

    /** One step of addToPeriphery's cross loop, over the orthogonal cell k of (x, y). */
    method CrossStep(region: seq<Cell>, r: seq<Cell>, x: int, y: int, k: int,
                     ghost u: set<Cell>, ghost ch: set<Cell>, ghost P0: Layer)
      returns (r': seq<Cell>)
      requires Shape() && k < 4 && CrossLoopAt(region, r, x, y, k, u, ch, P0)
      modifies periphery
      decreases |Unmarked()|, 4
      ensures CrossLoopAt(region, r', x, y, k + 1, u, ch, P0)
    {
      var cr := Cross(x, y);
      ghost var u0, ch0 := Unmarked(), Checked();
      r' := VisitIndicator(r, cr[k].0, cr[k].1);
      GrowStep(Elems(region), Elems(r), Elems(r'), u, u0, Unmarked());
      forall i, j | 0 <= i < width && 0 <= j < height
        ensures periphery[i, j] == P0[(i, j)] ||
          (periphery[i, j] == 1 && IsHiddenUnflagged(i, j)) || (periphery[i, j] == -1 && IsIndicator(i, j))
      {
        assert periphery[i, j] == old(periphery[i, j]) ||
          (periphery[i, j] == 1 && IsHiddenUnflagged(i, j)) || (periphery[i, j] == -1 && IsIndicator(i, j));
      }
      forall q | 0 <= q <= k && IsIndicator(cr[q].0, cr[q].1) ensures MarkIs(cr[q].0, cr[q].1, -1) {
        if q < k {
          assert old(MarkIs(cr[q].0, cr[q].1, -1));
        }
      }
      forall c | c in Checked() - ch ensures Reaches(c, Unmarked()) {
        if c in ch0 {
          ReachesShrink(c, u0, Unmarked());
        }
      }
    }

    /** The first two steps of addToPeriphery: push the cell and mark it 1. */
    method PushMarked(region: seq<Cell>, x: int, y: int) returns (r: seq<Cell>)
      requires Shape() && InRegion(region)
      requires IsHiddenUnflagged(x, y) && !MarkIs(x, y, 1)
      modifies periphery
      ensures InRegion(r) && r == region + [(x, y)]
      ensures (x, y) in old(Unmarked()) && Unmarked() == old(Unmarked()) - {(x, y)}
      ensures Elems(r) == Elems(region) + (old(Unmarked()) - Unmarked())
      ensures forall i, j :: 0 <= i < width && 0 <= j < height ==>
        periphery[i, j] == (if (i, j) == (x, y) then 1 else old(periphery[i, j]))
    {
      ghost var u := Unmarked();
      assert (x, y) !in region;
      r := region + [(x, y)];
      periphery[x, y] := 1;
      assert Unmarked() == u - {(x, y)};
      assert Elems(r) == Elems(region) + {(x, y)};
    }

    /** The body of addToPeriphery's cross loop: an indicator not yet marked -1 is marked and
        every hidden unflagged neighbour of it not yet marked 1 is added; every indicator
        this call marks -1 ends with all its hidden unflagged neighbours marked 1. */
    method VisitIndicator(region: seq<Cell>, x: int, y: int) returns (r: seq<Cell>)
      requires Shape() && InRegion(region)
      modifies periphery
      decreases |Unmarked()|, 3
      ensures InRegion(r)
      ensures |region| <= |r| && r[..|region|] == region
      ensures Unmarked() <= old(Unmarked())
      ensures Elems(r) == Elems(region) + (old(Unmarked()) - Unmarked())
      ensures forall i, j :: 0 <= i < width && 0 <= j < height ==>
        periphery[i, j] == old(periphery[i, j]) ||
        (periphery[i, j] == 1 && IsHiddenUnflagged(i, j)) || (periphery[i, j] == -1 && IsIndicator(i, j))
      ensures IsIndicator(x, y) ==> MarkIs(x, y, -1)
      ensures forall c :: c in Checked() - old(Checked()) ==> Reaches(c, Unmarked())
    {
      r := region;
      if IsIndicator(x, y) && !MarkIs(x, y, -1) {
        r := CheckIndicator(region, x, y);
      }
    }

    /** An indicator not yet marked -1: mark it, then add every hidden unflagged neighbour
        not yet marked 1. */
    method CheckIndicator(region: seq<Cell>, x: int, y: int) returns (r: seq<Cell>)
      requires Shape() && InRegion(region) && IsIndicator(x, y) && !MarkIs(x, y, -1)
      modifies periphery
      decreases |Unmarked()|, 2
      ensures InRegion(r)
      ensures |region| <= |r| && r[..|region|] == region
      ensures Unmarked() <= old(Unmarked())
      ensures Elems(r) == Elems(region) + (old(Unmarked()) - Unmarked())
      ensures forall i, j :: 0 <= i < width && 0 <= j < height ==>
        periphery[i, j] == old(periphery[i, j]) ||
        (periphery[i, j] == 1 && IsHiddenUnflagged(i, j)) || (periphery[i, j] == -1 && IsIndicator(i, j))
      ensures MarkIs(x, y, -1)
      ensures forall c :: c in Checked() - old(Checked()) ==> Reaches(c, Unmarked())
    {
      r := region;
      ghost var u, ch, P0 := Unmarked(), Checked(), MarkLayer();
      MarkChecked(x, y);
      for k := 0 to 8
        invariant NbLoopAt(region, r, x, y, k, u, ch, P0)
      {
        SubsetCard(Unmarked(), u);
        r := NbStep(region, r, x, y, k, u, ch, P0);
      }
      assert Reaches((x, y), Unmarked());
      forall i, j | 0 <= i < width && 0 <= j < height
        ensures periphery[i, j] == old(periphery[i, j]) ||
          (periphery[i, j] == 1 && IsHiddenUnflagged(i, j)) || (periphery[i, j] == -1 && IsIndicator(i, j))
      {
        assert P0[(i, j)] == old(periphery[i, j]);
      }
    }

    /** The indicator (x, y) is marked -1. */
    method MarkChecked(x: int, y: int)
      requires Shape() && IsIndicator(x, y) && !MarkIs(x, y, -1)
      modifies periphery
      ensures Unmarked() == old(Unmarked()) && Checked() == old(Checked()) + {(x, y)}
      ensures MarkIs(x, y, -1)
      ensures GrownFrom(old(MarkLayer()))
    {
      ghost var P0 := MarkLayer();
      periphery[x, y] := -1;
      assert Unmarked() == old(Unmarked());
      assert Checked() == old(Checked()) + {(x, y)};
      assert GrownFrom(P0);
    }

    /** What visitIndicator's neighbour loop keeps after the first k neighbours of the
        indicator (x, y), now marked -1, from the unmarked cells u, checked cells ch and
        marks P0 it started with. */
    ghost predicate NbLoopAt(region: seq<Cell>, r: seq<Cell>, x: int, y: int, k: int,
                             u: set<Cell>, ch: set<Cell>, P0: Layer)
      requires Shape()
      reads display, periphery
    {
      0 <= k <= 8 && InRegion(r) && |region| <= |r| && r[..|region|] == region &&
      Unmarked() <= u && Elems(r) == Elems(region) + (u - Unmarked()) &&
      GrownFrom(P0) && MarkIs(x, y, -1) && IsIndicator(x, y) &&
      (forall q :: 0 <= q < k && IsHiddenUnflagged(Neighbors(x, y)[q].0, Neighbors(x, y)[q].1) ==>
        Neighbors(x, y)[q] !in Unmarked()) &&
      (forall c :: c in Checked() - ch - {(x, y)} ==> Reaches(c, Unmarked()))
    }

    /** One step of the neighbour loop: the neighbour k of (x, y), when hidden, unflagged and
        not yet marked 1, is added by addToPeriphery. */
    method NbStep(region: seq<Cell>, r: seq<Cell>, x: int, y: int, k: int,
                  ghost u: set<Cell>, ghost ch: set<Cell>, ghost P0: Layer)
      returns (r': seq<Cell>)
      requires Shape() && k < 8 && NbLoopAt(region, r, x, y, k, u, ch, P0)
      modifies periphery
      decreases |Unmarked()|, 1
      ensures NbLoopAt(region, r', x, y, k + 1, u, ch, P0)
    {
      var nb := Neighbors(x, y);
      r' := r;
      if IsHiddenUnflagged(nb[k].0, nb[k].1) && !MarkIs(nb[k].0, nb[k].1, 1) {
        ghost var u0, ch0 := Unmarked(), Checked();
        r' := AddToPeriphery(r, nb[k].0, nb[k].1);
        GrowStep(Elems(region), Elems(r), Elems(r'), u, u0, Unmarked());
        forall i, j | 0 <= i < width && 0 <= j < height
          ensures periphery[i, j] == P0[(i, j)] ||
            (periphery[i, j] == 1 && IsHiddenUnflagged(i, j)) || (periphery[i, j] == -1 && IsIndicator(i, j))
        {
          assert periphery[i, j] == old(periphery[i, j]) ||
            (periphery[i, j] == 1 && IsHiddenUnflagged(i, j)) || (periphery[i, j] == -1 && IsIndicator(i, j));
        }
        forall c | c in Checked() - ch - {(x, y)} ensures Reaches(c, Unmarked()) {
          if c in ch0 {
            ReachesShrink(c, u0, Unmarked());
          }
        }
      }
    }

    // ---- configurations over a region ---------------------------------------------------------

    /** The periphery layer as a map over the board. */
    ghost function MarkLayer(): (m: Layer)
      requires Shape()
      reads periphery
      ensures forall c :: c in m <==> IsInBounds(c.0, c.1)
      ensures forall c :: c in m ==> 0 <= c.0 < width && 0 <= c.1 < height && m[c] == periphery[c.0, c.1]
    {
      map c | c in AllCells(width, height) :: periphery[c.0, c.1]
    }

    /** The marks the search keeps consistent: 1, 2 and 100 only on hidden unflagged cells,
        -1 only on indicators, 0 anywhere. */
    ghost predicate MarksOK()
      requires Shape()
      reads display, periphery
    {
      forall x, y :: 0 <= x < width && 0 <= y < height ==>
        (periphery[x, y] in {0, -1, 1, 2, 100}) &&
        (periphery[x, y] in {1, 2, 100} ==> IsHiddenUnflagged(x, y)) &&
        (periphery[x, y] == -1 ==> IsIndicator(x, y))
    }

    /** The ground truth as a map over the board. */
    ghost function MasterLayer(): (g: Layer)
      requires Shape()
      reads master
      ensures forall c :: c in g <==> IsInBounds(c.0, c.1)
      ensures forall c :: c in g ==> 0 <= c.0 < width && 0 <= c.1 < height && g[c] == master[c.0, c.1]
    {
      map c | c in AllCells(width, height) :: master[c.0, c.1]
    }

    /** The display layer as a map over the board. */
    ghost function DisplayLayer(): (d: Layer)
      requires Shape()
      reads display
      ensures forall c :: c in d <==> IsInBounds(c.0, c.1)
      ensures forall c :: c in d ==> 0 <= c.0 < width && 0 <= c.1 < height && d[c] == display[c.0, c.1]
    {
      map c | c in AllCells(width, height) :: display[c.0, c.1]
    }

    /** isValidConfiguration's verdict on config over the current board. */
    ghost predicate Accepts(region: seq<Cell>, config: seq<bool>)
      requires Shape() && |config| == |region|
      reads this`flags, display, periphery
    {
      AcceptsIn(MarkLayer(), DisplayLayer(), flags, region, config)
    }

    /** unapplyConfiguration, over the whole grid. */
    method UnapplyConfiguration()
      requires Shape()
      modifies periphery
      ensures forall i, j :: 0 <= i < width && 0 <= j < height ==>
        periphery[i, j] == Unmark(old(periphery[i, j]))
    {
      for x := 0 to width
        invariant forall i, j :: 0 <= i < width && 0 <= j < height ==>
          periphery[i, j] == if i < x then Unmark(old(periphery[i, j])) else old(periphery[i, j])
      {
        for y := 0 to height
          invariant forall i, j :: 0 <= i < width && 0 <= j < height ==>
            periphery[i, j] == if i < x || (i == x && j < y) then Unmark(old(periphery[i, j])) else old(periphery[i, j])
        {
          periphery[x, y] := Unmark(periphery[x, y]);
        }
      }
    }

    /** applyConfiguration: unapply, then mark each region cell 100 or 2 as its entry says. */
    method ApplyConfiguration(region: seq<Cell>, config: array<bool>)
      requires Shape() && config.Length == |region|
      modifies periphery
      ensures forall i, j :: 0 <= i < width && 0 <= j < height ==>
        periphery[i, j] == ApplyMark(region, config[..], (i, j), Unmark(old(periphery[i, j])))
      ensures MarkLayer() == Applied(old(MarkLayer()), region, config[..])
      ensures forall i, j :: 0 <= i < width && 0 <= j < height ==> periphery[i, j] != -1
      ensures old(MarksOK()) && OnHidden(region) ==> MarksOK()
    {
      ghost var m := MarkLayer();
      UnapplyConfiguration();
      for q := 0 to |region|
        invariant forall i, j :: 0 <= i < width && 0 <= j < height ==>
          periphery[i, j] == ApplyMark(region[..q], config[..q], (i, j), Unmark(old(periphery[i, j])))
      {
        assert region[..q + 1][..q] == region[..q] && config[..q + 1][..q] == config[..q];
        if IsInBounds(region[q].0, region[q].1) {
          periphery[region[q].0, region[q].1] := if config[q] then 100 else 2;
        }
      }
      assert region[..|region|] == region && config[..|region|] == config[..];
      assert forall c :: c in m ==> MarkLayer()[c] == Applied(m, region, config[..])[c];
      forall i, j | 0 <= i < width && 0 <= j < height
        ensures periphery[i, j] != -1
        ensures old(MarksOK()) && OnHidden(region) ==>
          periphery[i, j] in {0, 1, 2, 100} && (periphery[i, j] in {1, 2, 100} ==> IsHiddenUnflagged(i, j))
      {
        ApplyMarkFacts(region, config[..], (i, j), Unmark(old(periphery[i, j])), 0);
        if (i, j) in region {
          var q :| 0 <= q < |region| && region[q] == (i, j);
        }
      }
    }

    /** isDoublePeripheryIdicator. */
    method IsDoublePeripheryIndicator(x: int, y: int) returns (r: bool)
      requires Shape()
      ensures r == DoubleIn(MarkLayer(), (x, y))
    {
      var hasAOne, hasATwo := false, false;
      var nb := Neighbors(x, y);
      for k := 0 to 8
        invariant hasAOne <==> exists q :: 0 <= q < k && MarkIs(nb[q].0, nb[q].1, 1)
        invariant hasATwo <==> exists q :: 0 <= q < k && MarkIs(nb[q].0, nb[q].1, 2)
      {
        if MarkIs(nb[k].0, nb[k].1, 1) {
          hasAOne := true;
        } else if MarkIs(nb[k].0, nb[k].1, 2) {
          hasATwo := true;
        }
      }
      r := hasAOne && hasATwo;
      LayerMarks(nb);
    }

    /** A cell of l is marked v in the layer exactly when it is in bounds and marked v. */
    lemma LayerMarks(l: seq<Cell>)
      requires Shape()
      ensures forall k, v :: 0 <= k < |l| ==>
        (l[k] in MarkedWith(MarkLayer(), v) <==> MarkIs(l[k].0, l[k].1, v))
    {
    }

    lemma ConfigMineCells(l: seq<Cell>)
      requires Shape()
      ensures forall k :: 0 <= k < |l| ==>
        (l[k] in MarkedWith(MarkLayer(), 100) + MarkedWith(DisplayLayer(), FLAGGED) <==>
         MarkIs(l[k].0, l[k].1, 100) || IsFlagged(l[k].0, l[k].1))
    {
      LayerMarks(l);
    }

    /** numAdjacentConfigMines. */
    method NumAdjacentConfigMines(x: int, y: int) returns (counter: nat)
      requires Shape()
      ensures counter == ConfigMinesIn(MarkLayer(), DisplayLayer(), (x, y))
    {
      counter := 0;
      var nb := Neighbors(x, y);
      ghost var mines := MarkedWith(MarkLayer(), 100) + MarkedWith(DisplayLayer(), FLAGGED);
      ConfigMineCells(nb);
      for k := 0 to 8
        invariant counter == CountIn(nb[..k], mines)
      {
        CountInSnoc(nb, mines, k);
        if MarkIs(nb[k].0, nb[k].1, 100) || IsFlagged(nb[k].0, nb[k].1) {
          counter := counter + 1;
        }
      }
      assert nb[..8] == nb;
    }

    /** Layer m covers the board and nothing else. */
    ghost predicate OverBoard(m: Layer) {
      forall c :: c in m <==> IsInBounds(c.0, c.1)
    }

    /** The marks a check leaves over layer a: a's own, except indicators a leaves at 0 may now
        be -1. */
    ghost predicate CheckedOver(a: Layer)
      requires Shape()
      reads display, periphery
    {
      forall x, y :: 0 <= x < width && 0 <= y < height ==>
        (x, y) in a &&
        (periphery[x, y] == a[(x, y)] || (periphery[x, y] == -1 && IsIndicator(x, y) && a[(x, y)] == 0))
    }

    /** Under marks checked over m0, the double indicators and the configured mines are m0's. */
    lemma CheckedChoices(m0: Layer, c: Cell)
      requires Shape() && CheckedOver(m0) && OverBoard(m0)
      ensures DoubleIn(MarkLayer(), c) == DoubleIn(m0, c)
      ensures ConfigMinesIn(MarkLayer(), DisplayLayer(), c) == ConfigMinesIn(m0, DisplayLayer(), c)
    {
      var m := MarkLayer();
      assert m0.Keys == m.Keys;
      forall d | d in m0 && (m0[d] in {1, 2, 100} || m[d] in {1, 2, 100}) ensures m[d] == m0[d] {
        assert periphery[d.0, d.1] == m[d];
      }
      SameChoices(m0, m, c);
    }

    /** Mark a checked indicator. */
    method SetChecked(c: Cell, ghost m0: Layer)
      requires Shape() && MarksOK() && CheckedOver(m0)
      requires IsIndicator(c.0, c.1) && !MarkIs(c.0, c.1, -1)
      modifies periphery
      ensures MarksOK() && CheckedOver(m0)
      ensures periphery[c.0, c.1] == -1
      ensures forall i, j :: 0 <= i < width && 0 <= j < height && (i, j) != c ==>
        periphery[i, j] == old(periphery[i, j])
    {
      assert m0[c] == 0;
      periphery[c.0, c.1] := -1;
    }

    /** The body of isValidConfiguration's inner loops for one cross cell c. */
    method CheckCell(c: Cell, ghost m0: Layer, ghost d0: Layer) returns (ok: bool)
      requires Shape() && MarksOK() && CheckedOver(m0) && OverBoard(m0)
      requires d0 == DisplayLayer() && !MarkIs(c.0, c.1, -1)
      modifies periphery
      ensures ok <==> CellOK(m0, d0, c)
      ensures MarksOK() && CheckedOver(m0)
      ensures forall i, j :: 0 <= i < width && 0 <= j < height && (i, j) != c ==>
        periphery[i, j] == old(periphery[i, j])
    {
      ok := true;
      CheckedChoices(m0, c);
      if IsIndicator(c.0, c.1) && !MarkIs(c.0, c.1, -1) {
        var double := IsDoublePeripheryIndicator(c.0, c.1);
        if !double {
          var n := NumAdjacentConfigMines(c.0, c.1);
          if n == display[c.0, c.1] {
            SetChecked(c, m0);
          } else {
            ok := false;
          }
        }
      }
    }

    /** One square's pass of isValidConfiguration's inner loops: each cross indicator not yet
        marked -1 and not double must see as many configured mines and flags as it shows, and
        is then marked -1. */
    method CheckSquare(s: Cell) returns (ok: bool)
      requires Shape() && MarksOK()
      requires forall k :: 0 <= k < 4 ==> !MarkIs(CheckOrder(s.0, s.1)[k].0, CheckOrder(s.0, s.1)[k].1, -1)
      modifies periphery
      ensures ok <==> SquareOK(old(MarkLayer()), DisplayLayer(), s)
      ensures MarksOK() && CheckedOver(old(MarkLayer()))
    {
      ghost var m0, d0 := MarkLayer(), DisplayLayer();
      var co := CheckOrder(s.0, s.1);
      assert CheckedOver(m0);
      for k := 0 to 4
        invariant MarksOK() && CheckedOver(m0)
        invariant forall q :: k <= q < 4 ==> !MarkIs(co[q].0, co[q].1, -1)
        invariant CellsOK(m0, d0, co[..k])
      {
        ok := CheckNextCell(co, k, m0, d0);
        if !ok {
          return;
        }
      }
      assert co[..4] == co;
      ok := true;
    }

    /** CheckCell on co[k], in the terms of the whole list co. */
    method CheckNextCell(co: seq<Cell>, k: nat, ghost m0: Layer, ghost d0: Layer) returns (ok: bool)
      requires Shape() && MarksOK() && CheckedOver(m0) && OverBoard(m0) && d0 == DisplayLayer()
      requires k < |co| && Distinct(co) && CellsOK(m0, d0, co[..k])
      requires forall q :: k <= q < |co| ==> !MarkIs(co[q].0, co[q].1, -1)
      modifies periphery
      ensures MarksOK() && CheckedOver(m0)
      ensures ok ==> CellsOK(m0, d0, co[..k + 1])
      ensures ok ==> forall q :: k < q < |co| ==> !MarkIs(co[q].0, co[q].1, -1)
      ensures !ok ==> !CellsOK(m0, d0, co)
    {
      ok := CheckCell(co[k], m0, d0);
      CellsOKSnoc(m0, d0, co, k);
      if !ok {
        CellsOKEvery(m0, d0, co);
      }
    }

    /** Every region cell is hidden and unflagged. */
    ghost predicate OnHidden(region: seq<Cell>)
      requires Shape()
      reads display
    {
      forall q :: 0 <= q < |region| ==> IsHiddenUnflagged(region[q].0, region[q].1)
    }

    /** Checking a square over an applied layer leaves a layer that applies to the same. */
    lemma AppliedAfterCheck(region: seq<Cell>, config: seq<bool>, a: Layer)
      requires Shape() && |config| == |region|
      requires CheckedOver(a) && OverBoard(a) && Applied(a, region, config) == a
      ensures Applied(MarkLayer(), region, config) == a
    {
      var m := MarkLayer();
      assert a.Keys == m.Keys;
      forall c | c in a && c !in region ensures Unmark(m[c]) == Unmark(a[c]) {
        assert periphery[c.0, c.1] == m[c];
      }
      AppliedStable(a, m, region, config);
    }

    /** isValidConfiguration. The -1 test never skips an indicator: applyConfiguration clears
        every -1 before each square, and the four cross cells of a square are distinct. */
    method IsValidConfiguration(region: seq<Cell>, config: array<bool>) returns (valid: bool)
      requires Shape() && MarksOK() && OnHidden(region) && config.Length == |region|
      modifies periphery
      ensures valid == old(Accepts(region, config[..]))
      ensures MarksOK()
      ensures Counter.CountTrue(config[..]) > flags || region == [] ==> unchanged(periphery)
      ensures Counter.CountTrue(config[..]) <= flags && region != [] ==>
        CheckedOver(old(Applied(MarkLayer(), region, config[..])))
    {
      var count := Counter.NumMinesInConfig(config);
      if count > flags {
        return false;
      }
      ghost var a0, d0 := Applied(MarkLayer(), region, config[..]), DisplayLayer();
      AppliedIdempotent(MarkLayer(), region, config[..]);
      assert OverBoard(a0);
      for q := 0 to |region|
        invariant MarksOK()
        invariant SquaresOK(a0, d0, region[..q])
        invariant q == 0 ==> unchanged(periphery)
        invariant q > 0 ==> CheckedOver(a0)
      {
        var ok := CheckNextSquare(region, config, q, a0, d0);
        if !ok {
          return false;
        }
      }
      assert region[..|region|] == region;
      return true;
    }

    /** One round of isValidConfiguration's loop over the region: apply, then check square q. */
    method CheckNextSquare(region: seq<Cell>, config: array<bool>, q: nat, ghost a0: Layer, ghost d0: Layer)
      returns (ok: bool)
      requires Shape() && MarksOK() && config.Length == |region| && q < |region|
      requires d0 == DisplayLayer() && Applied(a0, region, config[..]) == a0
      requires a0 == Applied(MarkLayer(), region, config[..]) || CheckedOver(a0)
      requires OnHidden(region) && OverBoard(a0)
      requires SquaresOK(a0, d0, region[..q])
      modifies periphery
      ensures MarksOK() && CheckedOver(a0)
      ensures ok ==> SquaresOK(a0, d0, region[..q + 1])
      ensures !ok ==> !SquaresOK(a0, d0, region)
    {
      if a0 != Applied(MarkLayer(), region, config[..]) {
        AppliedAfterCheck(region, config[..], a0);
      }
      ApplyConfiguration(region, config);
      ok := CheckSquare(region[q]);
      SquaresOKSnoc(a0, d0, region, q);
      if !ok {
        SquaresOKEvery(a0, d0, region);
      }
    }

    // ---- computeProbabilities ---------------------------------------------------------------

    /** Outside the region, the marks unmark to those of layer m0. */
    ghost predicate UnmarksAs(m0: Layer, region: seq<Cell>)
      requires Shape()
      reads periphery
    {
      OverBoard(m0) &&
      forall x, y :: 0 <= x < width && 0 <= y < height && (x, y) !in region ==>
        Unmark(periphery[x, y]) == Unmark(m0[(x, y)])
    }

    /** While the marks unmark as m0's outside the region, every verdict is the one over m0. */
    lemma AcceptsStable(m0: Layer, region: seq<Cell>, config: seq<bool>)
      requires Shape() && |config| == |region| && UnmarksAs(m0, region)
      ensures Accepts(region, config) == AcceptsIn(m0, DisplayLayer(), flags, region, config)
    {
      var m := MarkLayer();
      assert m.Keys == m0.Keys;
      forall c | c in m0 && c !in region ensures Unmark(m[c]) == Unmark(m0[c]) {
        assert m[c] == periphery[c.0, c.1];
      }
      AppliedStable(m0, m, region, config);
    }

    /** A check over the layer applied to m keeps the unmarked values of m outside the region. */
    lemma CheckedUnmarks(m0: Layer, m: Layer, region: seq<Cell>, config: seq<bool>)
      requires Shape() && |config| == |region| && OverBoard(m0) && OverBoard(m)
      requires forall c :: c in m && c !in region ==> Unmark(m[c]) == Unmark(m0[c])
      requires CheckedOver(Applied(m, region, config))
      ensures UnmarksAs(m0, region)
    {
      var a := Applied(m, region, config);
      forall x, y | 0 <= x < width && 0 <= y < height && (x, y) !in region
        ensures Unmark(periphery[x, y]) == Unmark(m0[(x, y)])
      {
        ApplyMarkFacts(region, config, (x, y), Unmark(m[(x, y)]), 0);
        UnmarkIdempotent(m[(x, y)]);
      }
    }

    /** isValidConfiguration keeps the unmarked values outside the region. */
    method JudgeConfiguration(region: seq<Cell>, config: array<bool>, ghost m0: Layer) returns (valid: bool)
      requires Shape() && MarksOK() && OnHidden(region) && config.Length == |region|
      requires UnmarksAs(m0, region)
      modifies periphery
      ensures valid == AcceptsIn(m0, DisplayLayer(), flags, region, config[..])
      ensures MarksOK() && UnmarksAs(m0, region)
    {
      ghost var m := MarkLayer();
      AcceptsStable(m0, region, config[..]);
      valid := IsValidConfiguration(region, config);
      if !unchanged(periphery) {
        CheckedUnmarks(m0, m, region, config[..]);
      }
    }

    /** addToCount: one more mine for every candidate the configuration mines. */
    static method AddToCount(config: array<bool>, mineCounts: array<nat>)
      requires mineCounts.Length == config.Length
      modifies mineCounts
      ensures forall i :: 0 <= i < mineCounts.Length ==>
        mineCounts[i] == old(mineCounts[i]) + Counter.Bit(config[i])
    {
      for i := 0 to config.Length
        invariant forall k :: 0 <= k < mineCounts.Length ==>
          mineCounts[k] == old(mineCounts[k]) + (if k < i then Counter.Bit(config[k]) else 0)
      {
        if config[i] {
          mineCounts[i] := mineCounts[i] + 1;
        }
      }
    }

    /** computeProbabilities: every configuration of the region is judged in counting order,
        and each candidate's probability is the share of accepted configurations that mine it. */
    method ComputeProbabilities(region: seq<Cell>) returns (cands: seq<Candidate>)
      requires Shape() && MarksOK() && OnHidden(region)
      modifies periphery
      ensures |cands| == |region|
      ensures forall i :: 0 <= i < |region| ==>
        cands[i] == Candidate(region[i], Odds(old(MarkLayer()), DisplayLayer(), flags, region, i))
      ensures MarksOK() && UnmarksAs(old(MarkLayer()), region)
    {
      var n := |region|;
      ghost var m0, d0 := MarkLayer(), DisplayLayer();
      ghost var N := Counter.Pow2(n);
      var config := new bool[n](_ => false);
      var mineCounts := new nat[n](_ => 0);
      var totalConfigs: nat := 0;
      ghost var k: nat := 0;
      var more := true;
      assert config[..] == Counter.FromValue(0, n) by {
        Counter.AllFalseValue(n);
        assert config[..] == Counter.AllFalse(n);
      }
      while more
        invariant more ==> k < N && config[..] == Counter.FromValue(k, n)
        invariant !more ==> k == N
        invariant MarksOK() && UnmarksAs(m0, region) && DisplayLayer() == d0
        invariant totalConfigs == Counter.CountTrue(Verdicts(m0, d0, flags, region, k))
        invariant forall i :: 0 <= i < n ==>
          mineCounts[i] == MineTally(Verdicts(m0, d0, flags, region, k), Counter.Configs(n, k), i)
        decreases N - k + (if more then 1 else 0)
      {
        more, totalConfigs := CountRound(region, config, mineCounts, totalConfigs, k, m0, d0);
        k := k + 1;
      }
      cands := Quotients(region, mineCounts, totalConfigs);
    }

    /** The closing loop of computeProbabilities: candidate i gets mineCounts[i] / totalConfigs. */
    static method Quotients(region: seq<Cell>, mineCounts: array<nat>, totalConfigs: nat) returns (cands: seq<Candidate>)
      requires mineCounts.Length == |region|
      ensures |cands| == |region|
      ensures forall i :: 0 <= i < |region| ==> cands[i] == Candidate(region[i], Ratio(mineCounts[i], totalConfigs))
    {
      cands := [];
      for i := 0 to |region|
        invariant |cands| == i
        invariant forall q :: 0 <= q < i ==> cands[q] == Candidate(region[q], Ratio(mineCounts[q], totalConfigs))
      {
        cands := cands + [Candidate(region[i], Ratio(mineCounts[i], totalConfigs))];
      }
    }

    /** One round of computeProbabilities' do-while over the configuration numbered k. */
    method CountRound(region: seq<Cell>, config: array<bool>, mineCounts: array<nat>, totalConfigs: nat,
                      ghost k: nat, ghost m0: Layer, ghost d0: Layer)
      returns (more: bool, total: nat)
      requires Shape() && MarksOK() && OnHidden(region) && UnmarksAs(m0, region) && DisplayLayer() == d0
      requires config.Length == |region| && mineCounts.Length == |region|
      requires k < Counter.Pow2(|region|) && config[..] == Counter.FromValue(k, |region|)
      requires totalConfigs == Counter.CountTrue(Verdicts(m0, d0, flags, region, k))
      requires forall i :: 0 <= i < |region| ==>
        mineCounts[i] == MineTally(Verdicts(m0, d0, flags, region, k), Counter.Configs(|region|, k), i)
      modifies periphery, config, mineCounts
      ensures MarksOK() && UnmarksAs(m0, region)
      ensures more <==> k + 1 < Counter.Pow2(|region|)
      ensures more ==> config[..] == Counter.FromValue(k + 1, |region|)
      ensures total == Counter.CountTrue(Verdicts(m0, d0, flags, region, k + 1))
      ensures forall i :: 0 <= i < |region| ==>
        mineCounts[i] == MineTally(Verdicts(m0, d0, flags, region, k + 1), Counter.Configs(|region|, k + 1), i)
    {
      ghost var v := Verdicts(m0, d0, flags, region, k);
      var valid := JudgeConfiguration(region, config, m0);
      assert Verdicts(m0, d0, flags, region, k + 1) == v + [valid];
      more, total := Tally(config, mineCounts, totalConfigs, valid, k, v);
    }

    /** The counting half of a round: addToCount when the configuration is valid, then
        nextPermutation. */
    static method Tally(config: array<bool>, mineCounts: array<nat>, totalConfigs: nat, valid: bool,
                        ghost k: nat, ghost v: seq<bool>)
      returns (more: bool, total: nat)
      requires mineCounts.Length == config.Length && |v| == k < Counter.Pow2(config.Length)
      requires config[..] == Counter.FromValue(k, config.Length)
      requires totalConfigs == Counter.CountTrue(v)
      requires forall i :: 0 <= i < config.Length ==>
        mineCounts[i] == MineTally(v, Counter.Configs(config.Length, k), i)
      modifies config, mineCounts
      ensures more <==> k + 1 < Counter.Pow2(config.Length)
      ensures more ==> config[..] == Counter.FromValue(k + 1, config.Length)
      ensures total == Counter.CountTrue(v + [valid])
      ensures forall i :: 0 <= i < config.Length ==>
        mineCounts[i] == MineTally(v + [valid], Counter.Configs(config.Length, k + 1), i)
    {
      ghost var n, c := config.Length, config[..];
      total := totalConfigs;
      if valid {
        AddToCount(config, mineCounts);
        total := total + 1;
      }
      Counter.CountTrueSnoc(v, valid);
      forall i | 0 <= i < n
        ensures MineTally(v + [valid], Counter.Configs(n, k) + [c], i) ==
          MineTally(v, Counter.Configs(n, k), i) + Counter.Bit(valid && c[i])
      {
        MineTallySnoc(v, Counter.Configs(n, k), i, valid, c);
      }
      Counter.StepFromValue(k, n);
      more := Counter.NextPermutation(config);
    }

    // ---- regions over the whole board ------------------------------------------------------

    /** clearPeripheryGrid: every mark back to 0. */
    method ClearPeripheryGrid()
      requires Shape()
      modifies periphery
      ensures forall i, j :: 0 <= i < width && 0 <= j < height ==> periphery[i, j] == 0
      ensures MarksOK()
    {
      for x := 0 to width
        invariant forall i, j :: 0 <= i < width && 0 <= j < height ==>
          periphery[i, j] == if i < x then 0 else old(periphery[i, j])
      {
        for y := 0 to height
          invariant forall i, j :: 0 <= i < width && 0 <= j < height ==>
            periphery[i, j] == if i < x || (i == x && j < y) then 0 else old(periphery[i, j])
        {
          periphery[x, y] := 0;
        }
      }
    }

    /** The hidden unflagged cells that the mark layer m does not mark 1. */
    ghost function UnmarkedIn(m: Layer): set<Cell>
      requires Shape()
      reads display
    {
      set c | c in m && IsHiddenUnflagged(c.0, c.1) && m[c] != 1
    }

    /** The cells the mark layer m marks -1. */
    ghost function CheckedIn(m: Layer): set<Cell> {
      set c | c in m && m[c] == -1
    }

    /** The board's unmarked and checked cells are those of its mark layer. */
    lemma MarkSets()
      requires Shape()
      ensures UnmarkedIn(MarkLayer()) == Unmarked() && CheckedIn(MarkLayer()) == Checked()
    {
      forall c | c in Unmarked() ensures c in UnmarkedIn(MarkLayer()) {
        assert MarkLayer()[c] == periphery[c.0, c.1];
      }
      forall c | c in Checked() ensures c in CheckedIn(MarkLayer()) {
        assert MarkLayer()[c] == periphery[c.0, c.1];
      }
    }

    /** What the search from (x, y) leaves in the mark layer m, against the marks P0, the
        checked cells ch0 and the unmarked cells u0 it started from, for the region it
        returns. */
    ghost predicate SearchLeft(m: Layer, P0: Layer, ch0: set<Cell>, u0: set<Cell>, x: int, y: int,
                               region: seq<Cell>)
      requires Shape()
      reads display
    {
      (forall c :: c in m <==> 0 <= c.0 < width && 0 <= c.1 < height) &&
      (forall c :: c in m ==>
        (c in P0 && m[c] == P0[c]) || (m[c] == 1 && IsHiddenUnflagged(c.0, c.1)) ||
        (m[c] == -1 && IsIndicator(c.0, c.1)) || (c == (x, y) && m[c] == 0)) &&
      (forall k :: 0 <= k < 4 && IsIndicator(Cross(x, y)[k].0, Cross(x, y)[k].1) ==>
        Cross(x, y)[k] in m && m[Cross(x, y)[k]] == -1) &&
      (forall c :: c in CheckedIn(m) - ch0 ==> Reaches(c, UnmarkedIn(m) - {(x, y)})) &&
      (x, y) in m &&
      (m[(x, y)] == 1 ==> Elems(region) == u0 - UnmarkedIn(m)) &&
      (m[(x, y)] != 1 ==> |region| == 15 && m[(x, y)] == 0)
    }

    /** getPeriphery: the region grown from (x, y), with the probabilities of
        computeProbabilities over the marks m the search leaves. Against the marks it
        started from, m marks 1 only hidden unflagged cells, -1 only indicators, and resets
        at most the start cell to 0; each indicator it newly marks -1 has every hidden
        unflagged neighbour reached, as has each orthogonal indicator of the start; without
        the cut the region is exactly the cells newly marked 1. */
    method GetPeriphery(x: int, y: int) returns (cands: seq<Candidate>, ghost m: Layer)
      requires Shape() && MarksOK() && IsHiddenUnflagged(x, y) && !MarkIs(x, y, 1)
      modifies periphery
      ensures 1 <= |cands| <= 15 && cands[0].cell == (x, y)
      ensures Distinct(CellsOf(cands)) && OnHidden(CellsOf(cands))
      ensures forall i :: 0 <= i < |cands| ==> cands[i].cell in old(Unmarked())
      ensures forall i :: 0 <= i < |cands| ==>
        cands[i].prob == Odds(m, DisplayLayer(), flags, CellsOf(cands), i) && InUnit(cands[i].prob)
      ensures MarksOK()
      ensures SearchLeft(m, old(MarkLayer()), old(Checked()), old(Unmarked()), x, y, CellsOf(cands))
      ensures UnmarksAs(m, CellsOf(cands))
    {
      var region;
      region, m := SearchRegion(x, y);
      cands := ComputeProbabilities(region);
      assert CellsOf(cands) == region by {
        forall i | 0 <= i < |region| ensures CellsOf(cands)[i] == region[i] {
          assert cands[i].cell == region[i];
        }
      }
      forall i | 0 <= i < |cands|
        ensures cands[i].prob == Odds(m, DisplayLayer(), flags, CellsOf(cands), i) && InUnit(cands[i].prob)
      {
        assert cands[i] == Candidate(region[i], Odds(m, DisplayLayer(), flags, region, i));
        ProbabilityMeaning(m, DisplayLayer(), flags, region, i);
      }
    }

    /** GrowRegion, with the marks it leaves taken as a layer. */
    method SearchRegion(x: int, y: int) returns (region: seq<Cell>, ghost m: Layer)
      requires Shape() && MarksOK() && IsHiddenUnflagged(x, y) && !MarkIs(x, y, 1)
      modifies periphery
      ensures 1 <= |region| <= 15 && region[0] == (x, y)
      ensures Distinct(region) && OnHidden(region)
      ensures forall k :: 0 <= k < |region| ==> region[k] in old(Unmarked())
      ensures MarksOK() && m == MarkLayer()
      ensures SearchLeft(m, old(MarkLayer()), old(Checked()), old(Unmarked()), x, y, region)
    {
      ghost var P0 := MarkLayer();
      region := GrowRegion(x, y);
      m := MarkLayer();
      MarkSets();
      forall c | c in m
        ensures (c in P0 && m[c] == P0[c]) || (m[c] == 1 && IsHiddenUnflagged(c.0, c.1)) ||
          (m[c] == -1 && IsIndicator(c.0, c.1)) || (c == (x, y) && m[c] == 0)
      {
        assert m[c] == periphery[c.0, c.1] && P0[c] == old(periphery[c.0, c.1]);
      }
      forall k | 0 <= k < 4 && IsIndicator(Cross(x, y)[k].0, Cross(x, y)[k].1)
        ensures Cross(x, y)[k] in m && m[Cross(x, y)[k]] == -1
      {
        assert MarkIs(Cross(x, y)[k].0, Cross(x, y)[k].1, -1);
      }
    }

    /** The first half of getPeriphery: addToPeriphery from (x, y), then the cut to the first
        15 cells, each cut resetting the start cell's mark rather than the cut cell's. The
        search reaches every hidden unflagged neighbour of each indicator it checks, and of
        the start cell's orthogonal indicators; without a cut the region is exactly the
        cells it marked 1, and with one the start cell is back at 0. */
    method GrowRegion(x: int, y: int) returns (region: seq<Cell>)
      requires Shape() && MarksOK() && IsHiddenUnflagged(x, y) && !MarkIs(x, y, 1)
      modifies periphery
      ensures 1 <= |region| <= 15 && region[0] == (x, y)
      ensures Distinct(region) && OnHidden(region)
      ensures forall k :: 0 <= k < |region| ==> region[k] in old(Unmarked())
      ensures MarksOK()
      ensures forall i, j :: 0 <= i < width && 0 <= j < height ==>
        periphery[i, j] == old(periphery[i, j]) ||
        (periphery[i, j] == 1 && IsHiddenUnflagged(i, j)) || (periphery[i, j] == -1 && IsIndicator(i, j)) ||
        ((i, j) == (x, y) && periphery[i, j] == 0)
      ensures forall k :: 0 <= k < 4 && IsIndicator(Cross(x, y)[k].0, Cross(x, y)[k].1) ==>
        MarkIs(Cross(x, y)[k].0, Cross(x, y)[k].1, -1)
      ensures forall c :: c in Checked() - old(Checked()) ==> Reaches(c, Unmarked() - {(x, y)})
      ensures MarkIs(x, y, 1) ==> Elems(region) == old(Unmarked()) - Unmarked()
      ensures !MarkIs(x, y, 1) ==> |region| == 15 && MarkIs(x, y, 0)
    {
      ghost var u0 := Unmarked();
      region := AddToPeriphery([], x, y);
      ghost var r0, u1 := region, Unmarked();
      assert MarksOK();
      region := CutRegion(region, x, y);
      assert forall k :: 0 <= k < |region| ==> region[k] == r0[k] && region[k] in Elems(r0);
      forall c | c in Checked() - old(Checked()) ensures Reaches(c, Unmarked() - {(x, y)}) {
        ReachesShrink(c, u1, Unmarked() - {(x, y)});
      }
      if MarkIs(x, y, 1) {
        assert region == r0 && Unmarked() == u1;
        assert Elems(r0) == Elems([]) + (u0 - u1);
      }
    }

    /** getPeriphery's cut: while the region has more than 15 cells, drop its last cell and
        reset the start cell's mark to 0. */
    method CutRegion(region: seq<Cell>, x: int, y: int) returns (r: seq<Cell>)
      requires Shape() && 1 <= |region| && IsHiddenUnflagged(x, y) && MarkIs(x, y, 1)
      modifies periphery
      ensures |r| == (if |region| > 15 then 15 else |region|) && r == region[..|r|]
      ensures forall i, j :: 0 <= i < width && 0 <= j < height ==>
        periphery[i, j] == (if (i, j) == (x, y) && |region| > 15 then 0 else old(periphery[i, j]))
      ensures Checked() == old(Checked())
      ensures Unmarked() == old(Unmarked()) + (if |region| > 15 then {(x, y)} else {})
    {
      r := region;
      while |r| > 15
        invariant 1 <= |r| <= |region| && r == region[..|r|]
        invariant |r| < |region| ==> |region| > 15
        invariant |region| > 15 ==> |r| >= 15
        invariant forall i, j :: 0 <= i < width && 0 <= j < height ==>
          periphery[i, j] == (if (i, j) == (x, y) && |r| < |region| then 0 else old(periphery[i, j]))
        decreases |r|
      {
        r := r[..|r| - 1];
        periphery[x, y] := 0;
      }
      assert Checked() == old(Checked());
      assert Unmarked() == old(Unmarked()) + (if |region| > 15 then {(x, y)} else {});
    }

    /** What getPeripheries promises of each region: 1 to 15 distinct hidden unflagged cells,
        the first on the periphery, each probability in [0, 1]. */
    ghost predicate RegionShaped(cands: seq<Candidate>)
      requires Shape()
      reads display
    {
      1 <= |cands| <= 15 && OnPeriphery(cands[0].cell.0, cands[0].cell.1) &&
      Distinct(CellsOf(cands)) && OnHidden(CellsOf(cands)) &&
      forall i :: 0 <= i < |cands| ==> InUnit(cands[i].prob)
    }

    /** Every region of ps is shaped as getPeripheries promises. */
    ghost predicate AllShaped(ps: seq<seq<Candidate>>)
      requires Shape()
      reads display
    {
      forall k :: 0 <= k < |ps| ==> RegionShaped(ps[k])
    }

    /** Every region of ps is what the search from its first cell leaves against the marks
        pre[k] it started from, ms[k] being the marks that search left. */
    ghost predicate AllSearched(ps: seq<seq<Candidate>>, ms: seq<Layer>, pre: seq<Layer>)
      requires Shape()
      reads display
    {
      |ms| == |ps| && |pre| == |ps| &&
      forall k :: 0 <= k < |ps| ==> (|ps[k]| > 0 &&
        SearchLeft(ms[k], pre[k], CheckedIn(pre[k]), UnmarkedIn(pre[k]),
                   ps[k][0].cell.0, ps[k][0].cell.1, CellsOf(ps[k])))
    }

    /** Appending a region its search left keeps every region searched. */
    lemma {:induction false} SearchedSnoc(ps: seq<seq<Candidate>>, ms: seq<Layer>, pre: seq<Layer>,
                       p: seq<Candidate>, m: Layer, P: Layer)
      requires Shape() && AllSearched(ps, ms, pre) && |p| > 0
      requires SearchLeft(m, P, CheckedIn(P), UnmarkedIn(P), p[0].cell.0, p[0].cell.1, CellsOf(p))
      ensures AllSearched(ps + [p], ms + [m], pre + [P])
    {
      var qs: seq<seq<Candidate>>, ns: seq<Layer>, rs: seq<Layer> := ps + [p], ms + [m], pre + [P];
      forall k | 0 <= k < |qs|
        ensures |qs[k]| > 0 &&
          SearchLeft(ns[k], rs[k], CheckedIn(rs[k]), UnmarkedIn(rs[k]), qs[k][0].cell.0, qs[k][0].cell.1, CellsOf(qs[k]))
      {
        if k < |ps| {
          assert qs[k] == ps[k] && ns[k] == ms[k] && rs[k] == pre[k];
        }
      }
    }

    /** The marks now unmark as the last region's search left them outside that region;
        before any region they are all 0. */
    ghost predicate LastLeft(ps: seq<seq<Candidate>>, ms: seq<Layer>)
      requires Shape()
      reads periphery
    {
      |ms| == |ps| &&
      (ps == [] ==> AllMarked(0)) &&
      (ps != [] ==> UnmarksAs(ms[|ps| - 1], CellsOf(ps[|ps| - 1])))
    }

    /** After a search that left the marks unmarking as m outside its region p, p is the
        last region. */
    lemma {:induction false} LastSnoc(ps: seq<seq<Candidate>>, ms: seq<Layer>, p: seq<Candidate>, m: Layer)
      requires Shape() && |ms| == |ps| && UnmarksAs(m, CellsOf(p))
      ensures LastLeft(ps + [p], ms + [m])
    {
      assert (ps + [p])[|ps|] == p && (ms + [m])[|ps|] == m;
    }

    /** The marks now are the marks the next search would start from. */
    lemma {:induction false} LastLinks(ps: seq<seq<Candidate>>, ms: seq<Layer>)
      requires Shape() && LastLeft(ps, ms)
      ensures Links(ps, ms, MarkLayer())
    {
      var P := MarkLayer();
      if ps != [] {
        forall c | c in P && c !in CellsOf(ps[|ps| - 1])
          ensures c in ms[|ps| - 1] && Unmark(P[c]) == Unmark(ms[|ps| - 1][c])
        {
          assert P[c] == periphery[c.0, c.1];
        }
      } else {
        forall c | c in P ensures P[c] == 0 {
          assert MarkIs(c.0, c.1, 0);
        }
      }
    }

    /** Every in-bounds cell is marked v. */
    ghost predicate AllMarked(v: int)
      requires Shape()
      reads periphery
    {
      forall i, j :: 0 <= i < width && 0 <= j < height ==> MarkIs(i, j, v)
    }

    /** No cell the scan meets before (x, y) is on the periphery. */
    ghost predicate NoPeripheryBefore(x: int, y: int)
      requires Shape()
      reads display
    {
      forall i, j :: 0 <= i < width && 0 <= j < height && (i < x || (i == x && j < y)) ==> !OnPeriphery(i, j)
    }

    lemma NoPeripheryNext(x: int, y: int)
      requires Shape() && NoPeripheryBefore(x, y) && !OnPeriphery(x, y)
      ensures NoPeripheryBefore(x, y + 1)
    {
    }

    lemma NoPeripheryNextColumn(x: int)
      requires Shape() && NoPeripheryBefore(x, height)
      ensures NoPeripheryBefore(x + 1, 0)
    {
    }

    /** No cell of the board is on the periphery. */
    ghost predicate NoPeriphery()
      requires Shape()
      reads display
    {
      forall i, j :: 0 <= i < width && 0 <= j < height ==> !OnPeriphery(i, j)
    }

    lemma NoPeripheryAll()
      requires Shape() && NoPeripheryBefore(width, 0)
      ensures NoPeriphery()
    {
    }

    /** What getPeripheries' scan keeps about the regions ps found so far: the marks are
        well formed, every region is shaped, starts later than the one before, is priced
        over the marks ms[k] its search left and is what that search left against the marks
        pre[k] it started from; those start marks chain, and the marks now are as the last
        search left them. */
    ghost predicate Scanned(ps: seq<seq<Candidate>>, ms: seq<Layer>, pre: seq<Layer>)
      requires Shape()
      reads this, display, periphery
    {
      MarksOK() && AllShaped(ps) && StartsAscend(ps) && AllPriced(ps, ms, DisplayLayer(), flags) &&
      AllSearched(ps, ms, pre) && Chained(ps, ms, pre) && LastLeft(ps, ms)
    }

    /** getPeripheries: clear the marks, then grow a region from every periphery cell the
        scan meets still marked 0. Regions start at distinct cells, in scan order; they may
        share cells. Region k is what the search from its first cell leaves against the marks
        pre[k] it started from, ms[k] being the marks that search left: the first search
        starts from the cleared marks, each later one from marks that unmark as the search
        before left them outside the region before. There is no region exactly when no cell
        is on the periphery. */
    method GetPeripheries() returns (peripheries: seq<seq<Candidate>>, ghost ms: seq<Layer>, ghost pre: seq<Layer>)
      requires Shape()
      modifies periphery
      ensures MarksOK() && AllShaped(peripheries) && StartsAscend(peripheries)
      ensures AllPriced(peripheries, ms, DisplayLayer(), flags)
      ensures AllSearched(peripheries, ms, pre) && Chained(peripheries, ms, pre)
      ensures peripheries == [] <==> NoPeriphery()
    {
      peripheries, ms, pre := [], [], [];
      ClearPeripheryGrid();
      for x := 0 to width
        invariant Scanned(peripheries, ms, pre) && StartsBelow(peripheries, (x, 0))
        invariant peripheries == [] ==> NoPeripheryBefore(x, 0)
      {
        peripheries, ms, pre := ScanColumn(peripheries, ms, pre, x);
      }
      if peripheries != [] {
        assert RegionShaped(peripheries[0]);
      } else {
        NoPeripheryAll();
      }
    }

    /** One column of getPeripheries' scan. */
    method ScanColumn(peripheries: seq<seq<Candidate>>, ghost ms0: seq<Layer>, ghost pre0: seq<Layer>, x: int)
      returns (ps: seq<seq<Candidate>>, ghost ms: seq<Layer>, ghost pre: seq<Layer>)
      requires Shape() && Scanned(peripheries, ms0, pre0)
      requires 0 <= x < width && StartsBelow(peripheries, (x, 0))
      requires peripheries == [] ==> NoPeripheryBefore(x, 0)
      modifies periphery
      ensures Scanned(ps, ms, pre) && StartsBelow(ps, (x + 1, 0))
      ensures ps == [] ==> NoPeripheryBefore(x + 1, 0)
    {
      ps, ms, pre := peripheries, ms0, pre0;
      for y := 0 to height
        invariant Scanned(ps, ms, pre) && StartsBelow(ps, (x, y))
        invariant ps == [] ==> NoPeripheryBefore(x, y)
      {
        ghost var before := ps;
        ps, ms, pre := VisitStart(ps, ms, pre, x, y);
        if ps == [] {
          assert before == [] && MarkIs(x, y, 0);
          NoPeripheryNext(x, y);
        }
      }
      StartsNextColumn(ps, x, height);
      if ps == [] {
        NoPeripheryNextColumn(x);
      }
    }

    /** getPeriphery from a periphery cell not yet in a region. */
    method ShapedRegion(x: int, y: int) returns (p: seq<Candidate>, ghost m: Layer)
      requires Shape() && MarksOK() && OnPeriphery(x, y) && MarkIs(x, y, 0)
      modifies periphery
      ensures MarksOK() && RegionShaped(p) && Priced(p, m, DisplayLayer(), flags) && p[0].cell == (x, y)
      ensures SearchLeft(m, old(MarkLayer()), CheckedIn(old(MarkLayer())), UnmarkedIn(old(MarkLayer())),
                         x, y, CellsOf(p))
      ensures UnmarksAs(m, CellsOf(p)) && DisplayLayer() == old(DisplayLayer()) && flags == old(flags)
    {
      MarkSets();
      p, m := GetPeriphery(x, y);
    }

    lemma ShapedSnoc(ps: seq<seq<Candidate>>, p: seq<Candidate>)
      requires Shape() && AllShaped(ps) && RegionShaped(p)
      ensures AllShaped(ps + [p])
    {
    }

    /** The body of getPeripheries' scan at (x, y): a region is added exactly when the cell
        is on the periphery and still marked 0, and it is what the search from (x, y) leaves
        against the marks as they were; otherwise nothing changes. */
    method VisitStart(peripheries: seq<seq<Candidate>>, ghost ms0: seq<Layer>, ghost pre0: seq<Layer>,
                      x: int, y: int)
      returns (ps: seq<seq<Candidate>>, ghost ms: seq<Layer>, ghost pre: seq<Layer>)
      requires Shape() && Scanned(peripheries, ms0, pre0) && StartsBelow(peripheries, (x, y))
      modifies periphery
      ensures Scanned(ps, ms, pre) && StartsBelow(ps, (x, y + 1))
      ensures OnPeriphery(x, y) && old(MarkIs(x, y, 0)) ==>
        |ps| == |peripheries| + 1 && ps[..|peripheries|] == peripheries && ps[|peripheries|][0].cell == (x, y) &&
        ms[..|peripheries|] == ms0 && pre == pre0 + [old(MarkLayer())]
      ensures !(OnPeriphery(x, y) && old(MarkIs(x, y, 0))) ==>
        ps == peripheries && ms == ms0 && pre == pre0 && unchanged(periphery)
    {
      var isPeriphery := IsPeriphery(x, y);
      if isPeriphery && periphery[x, y] == 0 {
        ps, ms, pre := AddRegion(peripheries, ms0, pre0, x, y);
      } else {
        ps, ms, pre := peripheries, ms0, pre0;
        StartsLater(ps, (x, y), (x, y + 1));
      }
    }

    /** VisitStart at a periphery cell still marked 0: the region grown from it is appended,
        with the marks its search left and the marks it started from. */
    method AddRegion(peripheries: seq<seq<Candidate>>, ghost ms0: seq<Layer>, ghost pre0: seq<Layer>,
                     x: int, y: int)
      returns (ps: seq<seq<Candidate>>, ghost ms: seq<Layer>, ghost pre: seq<Layer>)
      requires Shape() && Scanned(peripheries, ms0, pre0) && StartsBelow(peripheries, (x, y))
      requires OnPeriphery(x, y) && MarkIs(x, y, 0)
      modifies periphery
      ensures Scanned(ps, ms, pre) && StartsBelow(ps, (x, y + 1))
      ensures |ps| == |peripheries| + 1 && ps[..|peripheries|] == peripheries && ps[|peripheries|][0].cell == (x, y)
      ensures ms[..|peripheries|] == ms0 && pre == pre0 + [old(MarkLayer())]
    {
      var p;
      ghost var m, P := *, MarkLayer();
      LastLinks(peripheries, ms0);
      p, m := ShapedRegion(x, y);
      ps, ms, pre := peripheries + [p], ms0 + [m], pre0 + [P];
      StartsSnoc(peripheries, p, x, y);
      ShapedSnoc(peripheries, p);
      SearchedSnoc(peripheries, ms0, pre0, p, m, P);
      PricedSnoc(peripheries, ms0, p, m, DisplayLayer(), flags);
      ChainSnoc(peripheries, ms0, pre0, p, m, P);
      LastSnoc(peripheries, ms0, p, m);
      assert ps[..|peripheries|] == peripheries && ms[..|peripheries|] == ms0;
    }

    // ---- the endgame helpers -----------------------------------------------------------

    /** Against the display layer D: a cell still shows its D value, or was hidden in D and
        now shows its ground truth. */
    ghost predicate RevealedFrom(D: Layer)
      requires Shape()
      reads master, display
    {
      forall i, j :: 0 <= i < width && 0 <= j < height ==>
        (i, j) in D && (display[i, j] == D[(i, j)] || (D[(i, j)] == HIDDEN && display[i, j] == master[i, j]))
    }

    /** The display layer's hidden, flagged and hidden unflagged cells are the board's. */
    lemma LayerSets()
      requires Shape()
      ensures HiddenIn(DisplayLayer()) == Hidden() && FlaggedIn(DisplayLayer()) == Flagged()
      ensures FreeIn(DisplayLayer()) == HiddenUnflagged()
    {
    }

    /** The display layer's flagged cells are the board's. */
    lemma FlaggedLayer()
      requires Shape()
      ensures FlaggedIn(DisplayLayer()) == Flagged()
    {
    }

    /** Revealing cells never adds or removes a flag: the board, revealed from D, has D's
        flagged cells. */
    lemma FlaggedRevealed(D: Layer)
      requires Shape() && Truthful() && RevealedFrom(D)
      requires forall c :: c in D ==> IsInBounds(c.0, c.1)
      ensures Flagged() == FlaggedIn(D)
    {
    }

    /** Against the display layer D: the same cells are flagged. */
    ghost predicate FlagsAsIn(D: Layer)
      requires Shape()
      reads display
    {
      forall i, j :: 0 <= i < width && 0 <= j < height ==>
        (i, j) in D && (display[i, j] == FLAGGED <==> D[(i, j)] == FLAGGED)
    }

    /** popRemainingSquares: pop every hidden unflagged cell, column by column. Flags stay;
        once the mines are laid, every other cell ends up showing its ground truth. */
    method PopRemainingSquares()
      requires Valid() && Truthful()
      modifies this`squaresLeft, this`firstPop, this`gameOver, this`gameWin, this`rand, master, display
      ensures Valid() && Truthful()
      ensures HiddenUnflagged() == {}
      ensures Flagged() == old(Flagged())
      ensures !old(firstPop) ==> forall i, j :: 0 <= i < width && 0 <= j < height ==>
        master[i, j] == old(master[i, j]) &&
        (display[i, j] == old(display[i, j]) || (old(display[i, j]) == HIDDEN && display[i, j] == master[i, j]))
    {
      ghost var D, M := DisplayLayer(), MasterLayer();
      LayerSets();
      PopColumns(D, M, !firstPop);
      FlagsAsInSets(D);
      if !old(firstPop) {
        forall i, j | 0 <= i < width && 0 <= j < height
          ensures master[i, j] == old(master[i, j]) &&
            (display[i, j] == old(display[i, j]) || (old(display[i, j]) == HIDDEN && display[i, j] == master[i, j]))
        {
          assert MasterLayer()[(i, j)] == M[(i, j)] && D[(i, j)] == old(display[i, j]);
        }
      }
    }

    /** The board flags the cells D flags. */
    lemma FlagsAsInSets(D: Layer)
      requires Shape() && FlagsAsIn(D)
      requires forall c :: c in D ==> IsInBounds(c.0, c.1)
      ensures Flagged() == FlaggedIn(D)
    {
      forall c | c in FlaggedIn(D) ensures c in Flagged() {
        assert display[c.0, c.1] == FLAGGED;
      }
    }

    /** The column loop of popRemainingSquares, from the display layer D and the ground
        truth M; laid says the mines were laid before it. */
    method PopColumns(ghost D: Layer, ghost M: Layer, ghost laid: bool)
      requires Valid() && Truthful() && FlagsAsIn(D)
      requires laid ==> !firstPop && RevealedFrom(D) && MasterLayer() == M
      modifies this`squaresLeft, this`firstPop, this`gameOver, this`gameWin, this`rand, master, display
      ensures Valid() && Truthful() && FlagsAsIn(D) && HiddenUnflagged() == {}
      ensures laid ==> !firstPop && RevealedFrom(D) && MasterLayer() == M
    {
      for x := 0 to width
        invariant Valid() && Truthful() && FlagsAsIn(D)
        invariant forall c :: c in HiddenUnflagged() ==> c.0 >= x
        invariant laid ==> !firstPop && RevealedFrom(D) && MasterLayer() == M
      {
        PopColumn(x, D, M, laid);
      }
      assert forall c :: c in HiddenUnflagged() ==> c.0 < width;
    }

    /** One column of popRemainingSquares' scan. */
    method PopColumn(x: int, ghost D: Layer, ghost M: Layer, ghost laid: bool)
      requires Valid() && Truthful() && FlagsAsIn(D) && 0 <= x < width
      requires forall c :: c in HiddenUnflagged() ==> c.0 >= x
      requires laid ==> !firstPop && RevealedFrom(D) && MasterLayer() == M
      modifies this`squaresLeft, this`firstPop, this`gameOver, this`gameWin, this`rand, master, display
      ensures Valid() && Truthful() && FlagsAsIn(D)
      ensures forall c :: c in HiddenUnflagged() ==> c.0 >= x + 1
      ensures laid ==> !firstPop && RevealedFrom(D) && MasterLayer() == M
    {
      for y := 0 to height
        invariant Valid() && Truthful() && FlagsAsIn(D)
        invariant forall c :: c in HiddenUnflagged() ==> c.0 > x || (c.0 == x && c.1 >= y)
        invariant laid ==> !firstPop && RevealedFrom(D) && MasterLayer() == M
      {
        PopScanAt(x, y, D, M, laid);
      }
    }

    /** popRemainingSquares at (x, y): pop it if it is hidden and unflagged. */
    method PopScanAt(x: int, y: int, ghost D: Layer, ghost M: Layer, ghost laid: bool)
      requires Valid() && Truthful() && FlagsAsIn(D)
      requires laid ==> !firstPop && RevealedFrom(D) && MasterLayer() == M
      modifies this`squaresLeft, this`firstPop, this`gameOver, this`gameWin, this`rand, master, display
      ensures Valid() && Truthful() && FlagsAsIn(D)
      ensures HiddenUnflagged() <= old(HiddenUnflagged()) - {(x, y)}
      ensures laid ==> !firstPop && RevealedFrom(D) && MasterLayer() == M
    {
      if firstPop {
        PopRemainingAt(x, y, D);
      } else {
        PopLaterAt(x, y, D);
      }
    }

    /** popRemainingSquares at (x, y) before the mines are laid. */
    method PopRemainingAt(x: int, y: int, ghost D: Layer)
      requires Valid() && Truthful() && FlagsAsIn(D)
      modifies this`squaresLeft, this`firstPop, this`gameOver, this`gameWin, this`rand, master, display
      ensures Valid() && Truthful() && FlagsAsIn(D)
      ensures HiddenUnflagged() <= old(HiddenUnflagged()) - {(x, y)}
    {
      if IsHiddenUnflagged(x, y) {
        Pop(x, y);
      }
    }

    /** popRemainingSquares at (x, y) once the mines are laid: master stays. */
    method PopLaterAt(x: int, y: int, ghost D: Layer)
      requires Valid() && Truthful() && !firstPop && FlagsAsIn(D)
      modifies this`squaresLeft, this`gameOver, this`gameWin, display
      ensures Valid() && Truthful() && !firstPop && FlagsAsIn(D)
      ensures old(RevealedFrom(D)) ==> RevealedFrom(D)
      ensures HiddenUnflagged() <= old(HiddenUnflagged()) - {(x, y)}
    {
      if IsHiddenUnflagged(x, y) {
        PopLater(x, y);
      }
    }

    /** numRemainingSquares: the number of hidden unflagged cells. */
    method NumRemainingSquares() returns (counter: nat)
      requires Shape()
      ensures counter == |HiddenUnflagged()|
    {
      ghost var hu := HiddenUnflagged();
      counter := 0;
      for x := 0 to width
        invariant counter == CountIn(WholeGrid(x, height), hu)
      {
        GridPrefixEnds(x, height);
        counter := CountInColumn(display, counter, x, hu);
      }
      GridCount(width, height, hu);
    }

    /** One column of numRemainingSquares' scan; hu holds the hidden unflagged cells of the
        column. */
    static method CountInColumn(display: array2<int>, counter: nat, x: nat, ghost hu: set<Cell>) returns (r: nat)
      requires x < display.Length0
      requires forall y :: 0 <= y < display.Length1 ==> ((x, y) in hu <==> display[x, y] < 0 && display[x, y] != FLAGGED)
      requires counter == CountIn(GridPrefix(x, display.Length1, 0), hu)
      ensures r == CountIn(GridPrefix(x, display.Length1, display.Length1), hu)
    {
      r := counter;
      for y := 0 to display.Length1
        invariant r == CountIn(GridPrefix(x, display.Length1, y), hu)
      {
        GridScanStep(x, display.Length1, y, hu);
        if display[x, y] < 0 && display[x, y] != FLAGGED {
          r := r + 1;
        }
      }
    }

    /** getRemainingSquaresAsPeriphery: one region holding every hidden unflagged cell in
        scan order, each with probability 0. */
    method GetRemainingSquaresAsPeriphery() returns (peripheries: seq<seq<Candidate>>)
      requires Shape()
      ensures |peripheries| == 1
      ensures CellsOf(peripheries[0]) == Select(WholeGrid(width, height), HiddenUnflagged())
      ensures Distinct(CellsOf(peripheries[0])) && Elems(CellsOf(peripheries[0])) == HiddenUnflagged()
      ensures forall i :: 0 <= i < |peripheries[0]| ==> peripheries[0][i].prob == Ratio(0, 1)
    {
      ghost var hu := HiddenUnflagged();
      var squares := [];
      for x := 0 to width
        invariant CellsOf(squares) == Select(WholeGrid(x, height), hu)
        invariant forall i :: 0 <= i < |squares| ==> squares[i].prob == Ratio(0, 1)
      {
        GridPrefixEnds(x, height);
        squares := RemainingInColumn(display, squares, x, hu);
      }
      peripheries := [squares];
      WholeGridExact(width, height);
      SelectFacts(WholeGrid(width, height), hu);
      assert Elems(WholeGrid(width, height)) * hu == hu;
    }

    /** One column of getRemainingSquaresAsPeriphery's scan; hu holds the hidden unflagged
        cells of the column. */
    static method RemainingInColumn(display: array2<int>, squares: seq<Candidate>, x: nat, ghost hu: set<Cell>)
      returns (r: seq<Candidate>)
      requires x < display.Length0
      requires forall y :: 0 <= y < display.Length1 ==> ((x, y) in hu <==> display[x, y] < 0 && display[x, y] != FLAGGED)
      requires CellsOf(squares) == Select(GridPrefix(x, display.Length1, 0), hu)
      requires forall i :: 0 <= i < |squares| ==> squares[i].prob == Ratio(0, 1)
      ensures CellsOf(r) == Select(GridPrefix(x, display.Length1, display.Length1), hu)
      ensures forall i :: 0 <= i < |r| ==> r[i].prob == Ratio(0, 1)
    {
      r := squares;
      for y := 0 to display.Length1
        invariant CellsOf(r) == Select(GridPrefix(x, display.Length1, y), hu)
        invariant forall i :: 0 <= i < |r| ==> r[i].prob == Ratio(0, 1)
      {
        GridScanStep(x, display.Length1, y, hu);
        if display[x, y] < 0 && display[x, y] != FLAGGED {
          CellsOfSnoc(r, Candidate((x, y), Ratio(0, 1)));
          r := r + [Candidate((x, y), Ratio(0, 1))];
        }
      }
    }

    /** noMoreFlags: no flags left to place; with the flag bookkeeping kept, exactly when as
        many cells are flagged as there are mines. */
    function NoMoreFlags(): (r: bool)
      requires Shape()
      reads this`flags, display
      ensures r <==> flags == 0
      ensures FlagBook() ==> (r <==> |Flagged()| == mines)
    {
      flags == 0
    }
  }
}
