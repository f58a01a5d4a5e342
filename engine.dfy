/** The solver of engine.js: one move on the board at a time. The global grid of the source is
    the Grid parameter g; Math.random() is g's stream of drawn values. */
module Engine {
  import opened Cells
  import opened Probability
  import opened Marks
  import opened Board

  /** A subset as large as its superset is the superset. */
  lemma SubsetSame(a: set<Cell>, b: set<Cell>)
    requires a <= b && |a| == |b|
    ensures a == b
  {
    if a != b {
      assert b - a != {} by {
        if b - a == {} {
          forall c | c in b ensures c in a {
            assert c !in b - a;
          }
        }
      }
      var c :| c in b - a;
      SubsetCard(a, b - {c});
    }
  }

  /** grid.pop as the solver uses it: pop reveals cells and lays the mines, but never adds
      or removes a flag, so the flag bookkeeping is kept. Against the board before, the cells
      only get revealed, the ground truth stays once laid, and the counters move as a reveal
      lets them. */
  method PopCell(g: Grid, x: int, y: int)
    requires g.Valid() && g.Truthful()
    modifies g`squaresLeft, g`firstPop, g`gameOver, g`gameWin, g`rand, g.master, g.display
    ensures g.Valid() && g.Truthful()
    ensures old(g.IsHiddenUnflagged(x, y)) ==> g.IsVisible(x, y)
    ensures !g.IsHiddenUnflagged(x, y)
    ensures g.Flagged() == old(g.Flagged())
    ensures old(g.FlagBook()) ==> g.FlagBook()
    ensures g.RevealStep(old(g.HiddenUnflagged()), old(g.squaresLeft), old(g.gameOver), old(g.gameWin))
    ensures forall i, j :: 0 <= i < g.width && 0 <= j < g.height ==>
      g.display[i, j] == old(g.display[i, j]) || (old(g.display[i, j]) == HIDDEN && g.display[i, j] == g.master[i, j])
    ensures forall i, j :: 0 <= i < g.width && 0 <= j < g.height && old(g.display[i, j]) == HIDDEN ==>
      (g.display[i, j] == MINE ==> g.gameOver)
    ensures !old(g.firstPop) ==> forall i, j :: 0 <= i < g.width && 0 <= j < g.height ==>
      g.master[i, j] == old(g.master[i, j])
  {
    ghost var D := g.DisplayLayer();
    g.FlaggedLayer();
    g.Pop(x, y);
    forall i, j | 0 <= i < g.width && 0 <= j < g.height
      ensures (i, j) in D && (g.display[i, j] == D[(i, j)] || (D[(i, j)] == HIDDEN && g.display[i, j] == g.master[i, j]))
    {
      assert D[(i, j)] == old(g.display[i, j]);
    }
    g.FlaggedRevealed(D);
  }

  // ---- makeRandomMove ------------------------------------------------------------------

  /** One `Math.floor(Math.random() * n)` pair: a column scaled by nx and a row by ny. */
  method Draw(g: Grid, nx: nat, ny: nat) returns (x: int, y: int)
    requires g.RandOK() && |g.rand| >= 2
    modifies g`rand
    ensures g.RandOK() && g.rand == old(g.rand[2..])
    ensures x == Scale(old(g.rand[0]), nx) && y == Scale(old(g.rand[1]), ny)
  {
    x := Scale(g.rand[0], nx);
    y := Scale(g.rand[1], ny);
    g.rand := g.rand[2..];
  }

  /** makeRandomMove: draw cells until a hidden one comes up and pop it. The first draw scales
      the row by the height, every redraw by the width, as the source does. When the stream
      runs out nothing is popped. Before the first pop every cell is hidden, so then the
      first draw is the cell popped. */
  method MakeRandomMove(g: Grid) returns (ghost popped: bool, ghost x: int, ghost y: int)
    requires g.Valid() && g.Truthful()
    modifies g`squaresLeft, g`firstPop, g`gameOver, g`gameWin, g`rand, g.master, g.display
    ensures g.Valid() && g.Truthful()
    ensures popped ==> old(g.IsHidden(x, y))
    ensures popped && old(g.IsHiddenUnflagged(x, y)) ==> g.IsVisible(x, y)
    ensures !popped ==>
      |g.rand| < 2 && unchanged(g.display, g.master) &&
      g.squaresLeft == old(g.squaresLeft) && g.firstPop == old(g.firstPop) &&
      g.gameOver == old(g.gameOver) && g.gameWin == old(g.gameWin)
    ensures old(g.firstPop) && |old(g.rand)| >= 2 ==>
      popped && x == Scale(old(g.rand[0]), g.width) && y == Scale(old(g.rand[1]), g.height)
    ensures g.Flagged() == old(g.Flagged()) && (old(g.FlagBook()) ==> g.FlagBook())
    ensures g.RevealStep(old(g.HiddenUnflagged()), old(g.squaresLeft), old(g.gameOver), old(g.gameWin))
    ensures forall i, j :: 0 <= i < g.width && 0 <= j < g.height ==>
      g.display[i, j] == old(g.display[i, j]) || (old(g.display[i, j]) == HIDDEN && g.display[i, j] == g.master[i, j])
    ensures forall i, j :: 0 <= i < g.width && 0 <= j < g.height && old(g.display[i, j]) == HIDDEN ==>
      (g.display[i, j] == MINE ==> g.gameOver)
    ensures !old(g.firstPop) ==> forall i, j :: 0 <= i < g.width && 0 <= j < g.height ==>
      g.master[i, j] == old(g.master[i, j])
  {
    if |g.rand| < 2 {
      return false, 0, 0;
    }
    ghost var first := g.firstPop;
    var cx, cy := Draw(g, g.width, g.height);
    assert first ==> g.IsHidden(cx, cy);
    while !g.IsHidden(cx, cy)
      invariant g.Valid() && g.Truthful()
      invariant first ==> g.IsHidden(cx, cy) && cx == Scale(old(g.rand[0]), g.width) && cy == Scale(old(g.rand[1]), g.height)
      invariant unchanged(g.display, g.master) && g.firstPop == old(g.firstPop)
      invariant g.squaresLeft == old(g.squaresLeft) && g.gameOver == old(g.gameOver) && g.gameWin == old(g.gameWin)
      decreases |g.rand|
    {
      if |g.rand| < 2 {
        return false, cx, cy;
      }
      cx, cy := Draw(g, g.width, g.width);
    }
    popped, x, y := true, cx, cy;
    PopCell(g, cx, cy);
  }

  // ---- makeBasicSolverMove -------------------------------------------------------------

  /** The board as far as a move can change it: the display layer, the ground truth, the
      flags left and the counters a pop changes. */
  ghost function BoardState(g: Grid): (Layer, Layer, int, (int, bool, seq<real>, bool, bool))
    requires g.Shape()
    reads g, g.display, g.master
  {
    (g.DisplayLayer(), g.MasterLayer(), g.flags, g.PopScalars())
  }

  /** The rule the basic solver applies at a cell. */
  datatype Rule = FlagRuleApplies | PopRuleApplies | NoRule

  /** The flag rule at (x, y) on the display layer D: an indicator showing as many hidden
      neighbours, flagged ones included, as its number. */
  ghost predicate FlagRule(D: Layer, x: int, y: int) {
    (x, y) in D && 1 <= D[(x, y)] <= 8 && D[(x, y)] == CountIn(Neighbors(x, y), HiddenIn(D))
  }

  /** The pop rule at (x, y) on D, tried where the flag rule does not apply: an indicator
      showing as many flagged neighbours as its number. */
  ghost predicate PopRule(D: Layer, x: int, y: int) {
    (x, y) in D && 1 <= D[(x, y)] <= 8 && !FlagRule(D, x, y) &&
    D[(x, y)] == CountIn(Neighbors(x, y), FlaggedIn(D))
  }

  /** The basic solver finds nothing to do at (x, y) on D: whichever rule applies there has
      no hidden unflagged neighbour to act on. */
  ghost predicate Idle(D: Layer, x: int, y: int) {
    FlagRule(D, x, y) || PopRule(D, x, y) ==> FreeIn(D) * Elems(Neighbors(x, y)) == {}
  }

  /** The basic solver finds nothing to do anywhere on the w by h layer D. */
  ghost predicate AllIdle(D: Layer, w: int, h: int) {
    forall i, j :: 0 <= i < w && 0 <= j < h ==> Idle(D, i, j)
  }

  /** makeBasicSolverMove: every indicator, column by column, gets the basic rules of
      BasicAt. No move is made exactly when every cell of the board it starts from is idle,
      and then nothing has changed; a move was made exactly when some hidden unflagged cell
      was flagged or revealed. */
  method MakeBasicSolverMove(g: Grid) returns (moveMade: bool)
    requires g.Valid() && g.Truthful()
    modifies g`flags, g`squaresLeft, g`firstPop, g`gameOver, g`gameWin, g`rand, g.master, g.display
    ensures g.Valid() && g.Truthful()
    ensures g.HiddenUnflagged() <= old(g.HiddenUnflagged())
    ensures moveMade <==> g.HiddenUnflagged() != old(g.HiddenUnflagged())
    ensures !moveMade <==> AllIdle(old(g.DisplayLayer()), g.width, g.height)
    ensures !moveMade ==> BoardState(g) == old(BoardState(g))
    ensures old(g.FlagBook()) ==> g.FlagBook()
  {
    ghost var S0, hu0, book0 := BoardState(g), g.HiddenUnflagged(), g.FlagBook();
    ghost var w: Cell := (0, 0);
    moveMade := false;
    for x := 0 to g.width
      invariant g.Valid() && g.Truthful()
      invariant SweptTo(g, x, 0, moveMade, w, S0, hu0, book0)
    {
      for y := 0 to g.height
        invariant g.Valid() && g.Truthful()
        invariant SweptTo(g, x, y, moveMade, w, S0, hu0, book0)
      {
        moveMade, w := BasicStep(g, x, y, moveMade, w, S0, hu0, book0);
      }
    }
  }

  /** What makeBasicSolverMove's loops keep once they reach (x, y), from the state S0 with
      the hidden unflagged cells hu0, book0 saying whether the flag count was right: the
      hidden unflagged cells only shrink, and a move was made exactly when they did; with
      no move yet nothing has changed and every cell visited is idle on S0's display; a
      move was made at an in-bounds cell w not idle on it. */
  ghost predicate SweptTo(g: Grid, x: int, y: int, moveMade: bool, w: Cell,
                          S0: (Layer, Layer, int, (int, bool, seq<real>, bool, bool)),
                          hu0: set<Cell>, book0: bool)
    requires g.Shape()
    reads g, g.display, g.master
  {
    g.HiddenUnflagged() <= hu0 && (moveMade <==> g.HiddenUnflagged() != hu0) &&
    (book0 ==> g.FlagBook()) &&
    (!moveMade ==>
      BoardState(g) == S0 &&
      forall i, j :: 0 <= i < g.width && 0 <= j < g.height && (i < x || (i == x && j < y)) ==> Idle(S0.0, i, j)) &&
    (moveMade ==> g.IsInBounds(w.0, w.1) && !Idle(S0.0, w.0, w.1))
  }

  /** One cell of makeBasicSolverMove's loops. */
  method BasicStep(g: Grid, x: int, y: int, moveMade: bool, ghost w: Cell,
                   ghost S0: (Layer, Layer, int, (int, bool, seq<real>, bool, bool)),
                   ghost hu0: set<Cell>, ghost book0: bool)
    returns (moveMade': bool, ghost w': Cell)
    requires g.Valid() && g.Truthful() && g.IsInBounds(x, y)
    requires SweptTo(g, x, y, moveMade, w, S0, hu0, book0)
    modifies g`flags, g`squaresLeft, g`firstPop, g`gameOver, g`gameWin, g`rand, g.master, g.display
    ensures g.Valid() && g.Truthful()
    ensures SweptTo(g, x, y + 1, moveMade', w', S0, hu0, book0)
  {
    ghost var hu := g.HiddenUnflagged();
    var moved := BasicAt(g, x, y);
    moveMade' := moveMade || moved;
    w' := if !moveMade && moved then (x, y) else w;
    if moveMade {
      assert g.HiddenUnflagged() != hu0 by {
        var c :| c in hu0 && c !in hu;
        assert c !in g.HiddenUnflagged();
      }
    }
  }

  /** The basic solver at one cell, from the display layer D it starts with. Where the flag
      rule applies, D's hidden unflagged neighbours are flagged and one flag fewer is left
      for each; where the pop rule applies, they are popped, the board being revealed from
      D with its flags kept; elsewhere nothing changes. No move is made exactly when the
      cell is idle on D, and then nothing changes. */
  method BasicAt(g: Grid, x: int, y: int) returns (moved: bool)
    requires g.Valid() && g.Truthful()
    modifies g`flags, g`squaresLeft, g`firstPop, g`gameOver, g`gameWin, g`rand, g.master, g.display
    ensures g.Valid() && g.Truthful()
    ensures g.HiddenUnflagged() <= old(g.HiddenUnflagged())
    ensures moved <==> g.HiddenUnflagged() != old(g.HiddenUnflagged())
    ensures !moved <==> Idle(old(g.DisplayLayer()), x, y)
    ensures !moved ==> BoardState(g) == old(BoardState(g))
    ensures FlagRule(old(g.DisplayLayer()), x, y) ==>
      g.HiddenUnflagged() == old(g.HiddenUnflagged()) - Elems(Neighbors(x, y)) &&
      g.flags == old(g.flags) - CountIn(Neighbors(x, y), old(g.HiddenUnflagged()))
    ensures FlagRule(old(g.DisplayLayer()), x, y) ==>
      forall i, j :: 0 <= i < g.width && 0 <= j < g.height ==>
        g.display[i, j] == (if (i, j) in old(g.HiddenUnflagged()) && Adjacent((x, y), (i, j)) then FLAGGED
                            else old(g.display[i, j]))
    ensures PopRule(old(g.DisplayLayer()), x, y) ==>
      g.RevealedFrom(old(g.DisplayLayer())) && g.Flagged() == old(g.Flagged()) &&
      g.flags == old(g.flags) && g.HiddenUnflagged() * Elems(Neighbors(x, y)) == {}
    ensures !FlagRule(old(g.DisplayLayer()), x, y) && !PopRule(old(g.DisplayLayer()), x, y) ==>
      BoardState(g) == old(BoardState(g))
    ensures old(g.FlagBook()) ==> g.FlagBook()
  {
    var rule := RuleAt(g, x, y);
    if rule == FlagRuleApplies {
      moved := FlagAround(g, x, y);
    } else if rule == PopRuleApplies {
      moved := PopAround(g, x, y);
    } else {
      moved := false;
    }
  }

  /** Which rule the basic solver applies at (x, y): the flag rule where an indicator shows
      as many hidden neighbours as its number, else the pop rule where it shows as many
      flagged neighbours, else none. */
  method RuleAt(g: Grid, x: int, y: int) returns (rule: Rule)
    requires g.Valid()
    ensures rule == FlagRuleApplies <==> FlagRule(g.DisplayLayer(), x, y)
    ensures rule == PopRuleApplies <==> PopRule(g.DisplayLayer(), x, y)
  {
    g.LayerSets();
    rule := NoRule;
    if g.IsIndicator(x, y) {
      var indi := g.display[x, y];
      var adjacentSquares := g.NumAdjacentSquares(x, y);
      if indi == adjacentSquares {
        rule := FlagRuleApplies;
      } else {
        var adjacentFlags := g.NumAdjacentFlags(x, y);
        if indi == adjacentFlags {
          rule := PopRuleApplies;
        }
      }
    }
  }

  /** The flag rule's branch, flagAdjacentSquares: the hidden unflagged neighbours of the
      display layer D it starts from become flagged and leave the hidden unflagged cells,
      with one flag fewer left for each, and no other cell changes. A move is made exactly
      when there was such a neighbour, that is when the cell is not idle on D, and
      otherwise nothing changes. */
  method FlagAround(g: Grid, x: int, y: int) returns (moved: bool)
    requires g.Valid() && g.Truthful() && FlagRule(g.DisplayLayer(), x, y)
    modifies g`flags, g.display
    ensures g.Valid() && g.Truthful()
    ensures g.HiddenUnflagged() == old(g.HiddenUnflagged()) - Elems(Neighbors(x, y))
    ensures forall i, j :: 0 <= i < g.width && 0 <= j < g.height ==>
      g.display[i, j] == (if (i, j) in old(g.HiddenUnflagged()) && Adjacent((x, y), (i, j)) then FLAGGED
                          else old(g.display[i, j]))
    ensures g.flags == old(g.flags) - CountIn(Neighbors(x, y), old(g.HiddenUnflagged()))
    ensures moved <==> g.HiddenUnflagged() != old(g.HiddenUnflagged())
    ensures !moved <==> Idle(old(g.DisplayLayer()), x, y)
    ensures !moved ==> BoardState(g) == old(BoardState(g))
    ensures old(g.FlagBook()) ==> g.FlagBook()
  {
    g.LayerSets();
    moved := g.FlagAdjacentSquares(x, y);
  }

  /** The pop rule's branch, popAdjacentSquares: the board is revealed from the display
      layer D it starts from, its flags kept and no neighbour left hidden and unflagged. A
      move is made exactly when there was such a neighbour, that is when the cell is not
      idle on D, and otherwise nothing changes. */
  method PopAround(g: Grid, x: int, y: int) returns (moved: bool)
    requires g.Valid() && g.Truthful() && PopRule(g.DisplayLayer(), x, y)
    modifies g`squaresLeft, g`firstPop, g`gameOver, g`gameWin, g`rand, g.master, g.display
    ensures g.Valid() && g.Truthful()
    ensures g.RevealedFrom(old(g.DisplayLayer())) && g.Flagged() == old(g.Flagged())
    ensures g.HiddenUnflagged() <= old(g.HiddenUnflagged())
    ensures g.HiddenUnflagged() * Elems(Neighbors(x, y)) == {}
    ensures moved <==> g.HiddenUnflagged() != old(g.HiddenUnflagged())
    ensures !moved <==> Idle(old(g.DisplayLayer()), x, y)
    ensures !moved ==> BoardState(g) == old(BoardState(g))
    ensures old(g.FlagBook()) ==> g.FlagBook()
  {
    g.LayerSets();
    moved := g.PopAdjacentSquares(x, y);
  }

  /** The flag rule is sound: while no mine is revealed, an indicator showing as many hidden
      neighbours as its number has a mine under every hidden neighbour. */
  lemma FlagRuleSound(g: Grid, x: int, y: int)
    requires g.Shape() && g.Truthful() && g.Shown() && g.IsIndicator(x, y)
    requires g.MineCells() <= g.Hidden()
    requires g.display[x, y] == CountIn(Neighbors(x, y), g.Hidden())
    ensures g.Hidden() * Elems(Neighbors(x, y)) <= g.MineCells()
  {
    var e := Elems(Neighbors(x, y));
    CountInDistinct(Neighbors(x, y), g.Hidden());
    CountInDistinct(Neighbors(x, y), g.MineCells());
    assert g.display[x, y] == g.master[x, y] == g.AdjMines(x, y);
    SubsetSame(g.MineCells() * e, g.Hidden() * e);
  }

  /** The pop rule is sound: while every flag is on a mine, an indicator showing as many
      flagged neighbours as its number has no mine under a hidden unflagged neighbour. */
  lemma PopRuleSound(g: Grid, x: int, y: int)
    requires g.Shape() && g.Truthful() && g.Shown() && g.IsIndicator(x, y)
    requires g.Flagged() <= g.MineCells()
    requires g.display[x, y] == CountIn(Neighbors(x, y), g.Flagged())
    ensures g.HiddenUnflagged() * Elems(Neighbors(x, y)) !! g.MineCells()
  {
    var e := Elems(Neighbors(x, y));
    CountInDistinct(Neighbors(x, y), g.Flagged());
    CountInDistinct(Neighbors(x, y), g.MineCells());
    assert g.display[x, y] == g.master[x, y] == g.AdjMines(x, y);
    SubsetSame(g.Flagged() * e, g.MineCells() * e);
    forall c | c in g.HiddenUnflagged() * e ensures c !in g.MineCells() {
      assert g.IsHiddenUnflagged(c.0, c.1);
      assert c !in g.Flagged() * e;
    }
  }
  /** The rules as the basic solver reads them off the display are sound: where the flag
      rule applies and every mine is hidden, every hidden neighbour is a mine; where the pop
      rule applies and every flag is on a mine, no hidden unflagged neighbour is one. */
  lemma BasicRulesSound(g: Grid, x: int, y: int)
    requires g.Valid() && g.Truthful()
    ensures FlagRule(g.DisplayLayer(), x, y) && g.MineCells() <= g.Hidden() ==>
      g.Hidden() * Elems(Neighbors(x, y)) <= g.MineCells()
    ensures PopRule(g.DisplayLayer(), x, y) && g.Flagged() <= g.MineCells() ==>
      g.HiddenUnflagged() * Elems(Neighbors(x, y)) !! g.MineCells()
  {
    g.LayerSets();
    if FlagRule(g.DisplayLayer(), x, y) && g.MineCells() <= g.Hidden() {
      assert g.DisplayLayer()[(x, y)] == g.display[x, y];
      FlagRuleSound(g, x, y);
    }
    if PopRule(g.DisplayLayer(), x, y) && g.Flagged() <= g.MineCells() {
      assert g.DisplayLayer()[(x, y)] == g.display[x, y];
      PopRuleSound(g, x, y);
    }
  }


  // ---- makeTankSolverMove --------------------------------------------------------------

  /** What makeTankSolverMove's loop keeps after visiting the first i candidates of flat:
      continuing the minimum scan from here gives the guess over all of them, and bestMove
      is the candidate the scan has chosen so far. */
  predicate TankState(flat: seq<Candidate>, i: nat, min: Ratio, bestMove: Option<Candidate>, best: Option<nat>) {
    i <= |flat| && Scan(Probs(flat), i, min, best) == Guess(Probs(flat)) &&
    (best.None? ==> bestMove.None?) &&
    (best.Some? ==> best.value < i && bestMove == Some(flat[best.value]))
  }

  /** makeTankSolverMove: compute the regions and their probabilities; over every candidate,
      region by region, pop it if its probability is 0 and flag it if it is 1, and keep the
      last one whose probability is lowest; pop that one at the end. A NaN probability is
      never the lowest; when every probability is NaN there is no best move (the source
      then dereferences null) and the final pop is skipped. Region k's probabilities are
      those over the marks ms[k] its search left, the display and the flags at the start;
      the marks pre[k] that search started from follow from the search before as
      getPeripheries chains them; there is no region exactly when no cell was on the
      periphery. */
  method MakeTankSolverMove(g: Grid)
    returns (ghost ps: seq<seq<Candidate>>, ghost ms: seq<Layer>, ghost pre: seq<Layer>, ghost guess: Option<nat>)
    requires g.Valid() && g.Truthful()
    modifies g`flags, g`squaresLeft, g`firstPop, g`gameOver, g`gameWin, g`rand, g.master, g.display, g.periphery
    ensures g.Valid() && g.Truthful()
    ensures old(g.AllShaped(ps)) && StartsAscend(ps)
    ensures AllPriced(ps, ms, old(g.DisplayLayer()), old(g.flags))
    ensures Chained(ps, ms, pre)
    ensures ps == [] <==> old(g.NoPeriphery())
    ensures guess == Guess(Probs(Flatten(ps)))
    ensures guess.Some? ==>
      guess.value < |Flatten(ps)| && Flatten(ps)[guess.value].cell !in g.HiddenUnflagged()
    ensures old(g.FlagBook()) ==> g.FlagBook()
  {
    var peripheries;
    peripheries, ms, pre := FindRegions(g);
    ps := peripheries;
    guess := PlayRegions(g, peripheries);
  }

  /** The first half of makeTankSolverMove: getPeripheries, which changes only the marks.
      Each region is what the search from its first cell left against the marks pre[k] it
      started from, and those marks follow from the search before. */
  method FindRegions(g: Grid) returns (ps: seq<seq<Candidate>>, ghost ms: seq<Layer>, ghost pre: seq<Layer>)
    requires g.Valid() && g.Truthful()
    modifies g.periphery
    ensures g.Valid() && g.Truthful() && unchanged(g.display)
    ensures g.AllShaped(ps) && StartsAscend(ps) && AllInBoard(g, ps)
    ensures AllPriced(ps, ms, g.DisplayLayer(), g.flags)
    ensures g.AllSearched(ps, ms, pre) && Chained(ps, ms, pre)
    ensures ps == [] <==> g.NoPeriphery()
  {
    ps, ms, pre := g.GetPeripheries();
    ShapedInBoard(g, ps);
  }

  /** The second half of makeTankSolverMove: the scan over the regions, then the pop of the
      candidate it chose. */
  method PlayRegions(g: Grid, peripheries: seq<seq<Candidate>>) returns (ghost guess: Option<nat>)
    requires g.Valid() && g.Truthful()
    modifies g`flags, g`squaresLeft, g`firstPop, g`gameOver, g`gameWin, g`rand, g.master, g.display
    ensures g.Valid() && g.Truthful()
    ensures guess == Guess(Probs(Flatten(peripheries)))
    ensures guess.Some? ==>
      guess.value < |Flatten(peripheries)| && Flatten(peripheries)[guess.value].cell !in g.HiddenUnflagged()
    ensures AllInBoard(g, peripheries) && old(g.FlagBook()) ==> g.FlagBook()
  {
    var bestMove;
    bestMove, guess := ScanPeripheries(g, peripheries);
    PopBest(g, bestMove);
  }

  /** The loops of makeTankSolverMove: the candidate they choose is the guess of the scan
      over all candidates in visiting order. */
  method ScanPeripheries(g: Grid, peripheries: seq<seq<Candidate>>)
    returns (bestMove: Option<Candidate>, ghost best: Option<nat>)
    requires g.Valid() && g.Truthful()
    modifies g`flags, g`squaresLeft, g`firstPop, g`gameOver, g`gameWin, g`rand, g.master, g.display
    ensures g.Valid() && g.Truthful()
    ensures best == Guess(Probs(Flatten(peripheries)))
    ensures best.None? ==> bestMove.None?
    ensures best.Some? ==>
      best.value < |Flatten(peripheries)| && bestMove == Some(Flatten(peripheries)[best.value])
    ensures AllInBoard(g, peripheries) && old(g.FlagBook()) ==> g.FlagBook()
  {
    ghost var flat := Flatten(peripheries);
    ghost var offs := Layout(peripheries);
    var min := Hundred;
    bestMove := None;
    best := None;
    ghost var book := AllInBoard(g, peripheries) && g.FlagBook();
    for r := 0 to |peripheries|
      invariant g.Valid() && g.Truthful()
      invariant TankState(flat, offs[r], min, bestMove, best)
      invariant book ==> AllInBoard(g, peripheries) && g.FlagBook()
    {
      assert offs[r + 1] == offs[r] + |peripheries[r]| && SitsAt(flat, offs[r], peripheries[r]);
      min, bestMove, best := RegionStep(g, peripheries, r, flat, offs, book, min, bestMove, best);
    }
    TankDone(flat, min, bestMove, best);
  }

  /** One pass of ScanPeripheries' loop: region r, which sits in flat from offs[r] on. */
  method RegionStep(g: Grid, peripheries: seq<seq<Candidate>>, r: nat, ghost flat: seq<Candidate>,
                    ghost offs: seq<nat>, ghost book: bool,
                    min: Ratio, bestMove: Option<Candidate>, ghost best: Option<nat>)
    returns (min': Ratio, bestMove': Option<Candidate>, ghost best': Option<nat>)
    requires g.Valid() && g.Truthful()
    requires r < |peripheries| && r + 1 < |offs|
    requires offs[r + 1] == offs[r] + |peripheries[r]| && SitsAt(flat, offs[r], peripheries[r])
    requires TankState(flat, offs[r], min, bestMove, best)
    requires book ==> AllInBoard(g, peripheries) && g.FlagBook()
    modifies g`flags, g`squaresLeft, g`firstPop, g`gameOver, g`gameWin, g`rand, g.master, g.display
    ensures g.Valid() && g.Truthful()
    ensures TankState(flat, offs[r + 1], min', bestMove', best')
    ensures book ==> AllInBoard(g, peripheries) && g.FlagBook()
  {
    assert book ==> InBoard(g, peripheries[r]);
    min', bestMove', best' := TankRegion(g, peripheries[r], flat, offs[r], book, min, bestMove, best);
  }

  /** Once every candidate is visited, the candidate chosen is the guess. */
  lemma TankDone(flat: seq<Candidate>, min: Ratio, bestMove: Option<Candidate>, best: Option<nat>)
    requires TankState(flat, |flat|, min, bestMove, best)
    ensures best == Guess(Probs(flat))
    ensures best.None? ==> bestMove.None?
    ensures best.Some? ==> best.value < |flat| && bestMove == Some(flat[best.value])
  {
  }

  /** The final `grid.pop(bestMove.x, bestMove.y)`, skipped when there is no best move. */
  /** The final pop of makeTankSolverMove: the chosen candidate, when there is one. */
  method PopBest(g: Grid, bestMove: Option<Candidate>)
    requires g.Valid() && g.Truthful()
    modifies g`squaresLeft, g`firstPop, g`gameOver, g`gameWin, g`rand, g.master, g.display
    ensures g.Valid() && g.Truthful()
    ensures bestMove.Some? ==> bestMove.value.cell !in g.HiddenUnflagged()
    ensures bestMove.None? ==> unchanged(g) && unchanged(g.display, g.master)
    ensures g.Flagged() == old(g.Flagged()) && (old(g.FlagBook()) ==> g.FlagBook())
    ensures g.RevealStep(old(g.HiddenUnflagged()), old(g.squaresLeft), old(g.gameOver), old(g.gameWin))
    ensures forall i, j :: 0 <= i < g.width && 0 <= j < g.height ==>
      g.display[i, j] == old(g.display[i, j]) || (old(g.display[i, j]) == HIDDEN && g.display[i, j] == g.master[i, j])
    ensures forall i, j :: 0 <= i < g.width && 0 <= j < g.height && old(g.display[i, j]) == HIDDEN ==>
      (g.display[i, j] == MINE ==> g.gameOver)
    ensures !old(g.firstPop) ==> forall i, j :: 0 <= i < g.width && 0 <= j < g.height ==>
      g.master[i, j] == old(g.master[i, j])
  {
    if bestMove.Some? {
      var cell := bestMove.value.cell;
      PopCell(g, cell.0, cell.1);
    }
  }

  /** Every candidate of the region is a cell of g's board. */
  ghost predicate InBoard(g: Grid, region: seq<Candidate>) {
    forall i :: 0 <= i < |region| ==> g.IsInBounds(region[i].cell.0, region[i].cell.1)
  }

  /** Every candidate of every region is a cell of g's board. */
  ghost predicate AllInBoard(g: Grid, ps: seq<seq<Candidate>>) {
    forall r :: 0 <= r < |ps| ==> InBoard(g, ps[r])
  }

  /** The regions getPeripheries returns lie on the board. */
  lemma ShapedInBoard(g: Grid, ps: seq<seq<Candidate>>)
    requires g.Shape() && g.AllShaped(ps)
    ensures AllInBoard(g, ps)
  {
    forall r, i | 0 <= r < |ps| && 0 <= i < |ps[r]|
      ensures g.IsInBounds(ps[r][i].cell.0, ps[r][i].cell.1)
    {
      assert g.RegionShaped(ps[r]);
      assert CellsOf(ps[r])[i] == ps[r][i].cell;
    }
  }

  /** The inner loop of makeTankSolverMove over one region, whose candidates sit in flat
      from position base on. */
  method TankRegion(g: Grid, region: seq<Candidate>, ghost flat: seq<Candidate>, ghost base: nat,
                    ghost book: bool, min: Ratio, bestMove: Option<Candidate>, ghost best: Option<nat>)
    returns (min': Ratio, bestMove': Option<Candidate>, ghost best': Option<nat>)
    requires g.Valid() && g.Truthful()
    requires SitsAt(flat, base, region)
    requires TankState(flat, base, min, bestMove, best)
    requires book ==> InBoard(g, region) && g.FlagBook()
    modifies g`flags, g`squaresLeft, g`firstPop, g`gameOver, g`gameWin, g`rand, g.master, g.display
    ensures g.Valid() && g.Truthful()
    ensures TankState(flat, base + |region|, min', bestMove', best')
    ensures book ==> g.FlagBook()
  {
    min', bestMove', best' := min, bestMove, best;
    for s := 0 to |region|
      invariant g.Valid() && g.Truthful()
      invariant TankState(flat, base + s, min', bestMove', best')
      invariant book ==> g.FlagBook()
    {
      min', bestMove', best' := TankSquare(g, region[s], flat, base + s, min', bestMove', best');
    }
  }

  /** One candidate of makeTankSolverMove's loop: the candidate flat[i]. */
  method TankSquare(g: Grid, square: Candidate, ghost flat: seq<Candidate>, ghost i: nat,
                    min: Ratio, bestMove: Option<Candidate>, ghost best: Option<nat>)
    returns (min': Ratio, bestMove': Option<Candidate>, ghost best': Option<nat>)
    requires g.Valid() && g.Truthful()
    requires i < |flat| && flat[i] == square && TankState(flat, i, min, bestMove, best)
    modifies g`flags, g`squaresLeft, g`firstPop, g`gameOver, g`gameWin, g`rand, g.master, g.display
    ensures g.Valid() && g.Truthful()
    ensures TankState(flat, i + 1, min', bestMove', best')
    ensures IsZero(square.prob) && old(g.IsHiddenUnflagged(square.cell.0, square.cell.1)) ==>
      g.IsVisible(square.cell.0, square.cell.1)
    ensures IsOne(square.prob) && old(g.IsHiddenUnflagged(square.cell.0, square.cell.1)) ==>
      g.IsFlagged(square.cell.0, square.cell.1)
    ensures IsOne(square.prob) && old(g.IsFlagged(square.cell.0, square.cell.1)) ==>
      g.IsHiddenUnflagged(square.cell.0, square.cell.1)
    ensures !IsZero(square.prob) && !IsOne(square.prob) ==> unchanged(g.display) && g.flags == old(g.flags)
    ensures IsZero(square.prob) ==>
      g.RevealStep(old(g.HiddenUnflagged()), old(g.squaresLeft), old(g.gameOver), old(g.gameWin)) &&
      (forall i, j :: 0 <= i < g.width && 0 <= j < g.height ==>
        g.display[i, j] == old(g.display[i, j]) || (old(g.display[i, j]) == HIDDEN && g.display[i, j] == g.master[i, j])) &&
      (forall i, j :: 0 <= i < g.width && 0 <= j < g.height && old(g.display[i, j]) == HIDDEN ==>
        (g.display[i, j] == MINE ==> g.gameOver)) &&
      (!old(g.firstPop) ==> forall i, j :: 0 <= i < g.width && 0 <= j < g.height ==> g.master[i, j] == old(g.master[i, j]))
    ensures !IsZero(square.prob) ==>
      unchanged(g.master) && g.squaresLeft == old(g.squaresLeft) && g.firstPop == old(g.firstPop) &&
      g.rand == old(g.rand) && g.gameOver == old(g.gameOver) && g.gameWin == old(g.gameWin) &&
      forall i, j :: 0 <= i < g.width && 0 <= j < g.height && (i, j) != square.cell ==>
        g.display[i, j] == old(g.display[i, j])
    ensures g.IsInBounds(square.cell.0, square.cell.1) && old(g.FlagBook()) ==> g.FlagBook()
  {
    if IsZero(square.prob) {
      PopCell(g, square.cell.0, square.cell.1);
    } else if IsOne(square.prob) {
      g.Flag(square.cell.0, square.cell.1);
    }
    if LessEq(square.prob, min) {
      min', bestMove', best' := square.prob, Some(square), Some(i);
    } else {
      min', bestMove', best' := min, bestMove, best;
    }
  }

  /** Every probability getPeripheries returns lies in [0, 1]. */
  lemma {:induction false} ShapedInUnit(g: Grid, ps: seq<seq<Candidate>>)
    requires g.Shape() && g.AllShaped(ps)
    ensures forall i :: 0 <= i < |Flatten(ps)| ==> InUnit(Flatten(ps)[i].prob)
  {
    if ps != [] {
      assert g.RegionShaped(ps[0]);
      assert g.AllShaped(ps[1..]) by {
        forall k | 0 <= k < |ps| - 1 ensures g.RegionShaped(ps[1..][k]) {
          assert ps[1..][k] == ps[k + 1];
        }
      }
      ShapedInUnit(g, ps[1..]);
      assert Flatten(ps) == ps[0] + Flatten(ps[1..]);
    }
  }

  /** The tank's final pop is the last candidate of lowest probability over the regions
      getPeripheries found: its probability is a number, no candidate's is lower, every
      later candidate's is higher; there is none exactly when every probability is NaN. */
  lemma TankGuessMeaning(g: Grid, ps: seq<seq<Candidate>>)
    requires g.Shape() && g.AllShaped(ps)
    ensures Guess(Probs(Flatten(ps))).None? <==> forall i :: 0 <= i < |Flatten(ps)| ==> IsNaN(Flatten(ps)[i].prob)
    ensures Guess(Probs(Flatten(ps))).Some? ==>
      var k := Guess(Probs(Flatten(ps))).value;
      k < |Flatten(ps)| && !IsNaN(Flatten(ps)[k].prob) &&
      (forall j :: 0 <= j < |Flatten(ps)| && !IsNaN(Flatten(ps)[j].prob) ==> LessEq(Flatten(ps)[k].prob, Flatten(ps)[j].prob)) &&
      (forall j :: k < j < |Flatten(ps)| && !IsNaN(Flatten(ps)[j].prob) ==> !LessEq(Flatten(ps)[j].prob, Flatten(ps)[k].prob))
  {
    ShapedInUnit(g, ps);
    GuessIsLastMinimal(Probs(Flatten(ps)));
  }

  // ---- makeBestMove ----------------------------------------------------------------------

  /** Which strategy makeBestMove used. */
  datatype Move = RandomMove | BasicMove | PopRest | TankMove

  /** makeBestMove: a random pop for the opening move; afterwards the basic rules, and when
      they find nothing, either pop everything left once no flags remain to be placed, or
      the probability search. */
  method MakeBestMove(g: Grid) returns (ghost move: Move)
    requires g.Valid() && g.Truthful()
    modifies g`flags, g`squaresLeft, g`firstPop, g`gameOver, g`gameWin, g`rand, g.master, g.display, g.periphery
    ensures g.Valid() && g.Truthful()
    ensures move.RandomMove? <==> old(g.firstPop)
    ensures move.BasicMove? <==> !old(g.firstPop) && !AllIdle(old(g.DisplayLayer()), g.width, g.height)
    ensures move.PopRest? <==>
      !old(g.firstPop) && AllIdle(old(g.DisplayLayer()), g.width, g.height) && old(g.flags) == 0
    ensures move.TankMove? <==>
      !old(g.firstPop) && AllIdle(old(g.DisplayLayer()), g.width, g.height) && old(g.flags) != 0
    ensures move.RandomMove? && |old(g.rand)| >= 2 ==>
      var cx, cy := Scale(old(g.rand[0]), g.width), Scale(old(g.rand[1]), g.height);
      old(g.IsHidden(cx, cy)) && (old(g.IsHiddenUnflagged(cx, cy)) ==> g.IsVisible(cx, cy))
    ensures move.BasicMove? ==> g.HiddenUnflagged() < old(g.HiddenUnflagged())
    ensures move.PopRest? ==> g.flags == 0 && g.HiddenUnflagged() == {} && g.Flagged() == old(g.Flagged())
    ensures old(g.FlagBook()) ==> g.FlagBook()
  {
    if g.firstPop {
      ghost var popped, x, y := MakeRandomMove(g);
      move := RandomMove;
    } else {
      var moveMade := MakeBasicSolverMove(g);
      if moveMade {
        move := BasicMove;
      } else if g.NoMoreFlags() {
        g.PopRemainingSquares();
        move := PopRest;
      } else {
        ghost var ps, ms, pre, guess := MakeTankSolverMove(g);
        move := TankMove;
      }
    }
  }
}
