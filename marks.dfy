/** The scratch layer of marks the probability search writes: 0 unmarked, 1 on a periphery,
    2 and 100 a configuration's safe and mine choice, -1 an indicator already checked.
    A layer is a map from the in-bounds cells to their marks. */
module Marks {
  import opened Cells
  import Counter
  import opened Probability

  type Layer = map<Cell, int>

  /** unapplyConfiguration on one mark: a configured cell goes back to 1, a checked
      indicator to 0, anything else stays. */
  function Unmark(v: int): (r: int)
    ensures r != 100 && r != 2 && r != -1
    ensures v != 100 && v != 2 && v != -1 ==> r == v
    ensures (v == 100 || v == 2) ==> r == 1
    ensures v == -1 ==> r == 0
  {
    if v == 100 || v == 2 then 1 else if v == -1 then 0 else v
  }

  /** Unmarking twice is unmarking once. */
  lemma UnmarkIdempotent(v: int)
    ensures Unmark(Unmark(v)) == Unmark(v)
  {
  }

  /** The mark applyConfiguration's loop leaves on c over an unmarked value base: the last
      entry of region equal to c writes 100 or 2 as its configuration entry says. */
  function ApplyMark(region: seq<Cell>, config: seq<bool>, c: Cell, base: int): int
    requires |config| == |region|
  {
    if region == [] then base
    else if region[|region| - 1] == c then (if config[|config| - 1] then 100 else 2)
    else ApplyMark(region[..|region| - 1], config[..|config| - 1], c, base)
  }

  /** Outside the region the base stays; inside it the mark is 100 or 2 whatever the base,
      and on a region without repetitions it is the cell's own configuration entry. */
  lemma {:induction false} ApplyMarkFacts(region: seq<Cell>, config: seq<bool>, c: Cell, base: int, other: int)
    requires |config| == |region|
    ensures c !in region ==> ApplyMark(region, config, c, base) == base
    ensures c in region ==>
      ApplyMark(region, config, c, base) == ApplyMark(region, config, c, other) &&
      (ApplyMark(region, config, c, base) == 100 || ApplyMark(region, config, c, base) == 2)
    ensures forall k :: 0 <= k < |region| && region[k] == c && Distinct(region) ==>
      ApplyMark(region, config, c, base) == (if config[k] then 100 else 2)
  {
    if region != [] {
      var n := |region| - 1;
      ApplyMarkFacts(region[..n], config[..n], c, base, other);
      if region[n] != c {
        assert c in region ==> c in region[..n] by {
          if c in region {
            var k :| 0 <= k < |region| && region[k] == c;
            assert region[..n][k] == c;
          }
        }
        forall k | 0 <= k < |region| && region[k] == c && Distinct(region)
          ensures ApplyMark(region, config, c, base) == (if config[k] then 100 else 2)
        {
          assert region[..n][k] == c && config[..n][k] == config[k];
          assert Distinct(region[..n]);
        }
      }
    }
  }

  /** The layer applyConfiguration produces from layer m. */
  function Applied(m: Layer, region: seq<Cell>, config: seq<bool>): (a: Layer)
    requires |config| == |region|
    ensures a.Keys == m.Keys
  {
    map c | c in m :: ApplyMark(region, config, c, Unmark(m[c]))
  }

  /** Applying a configuration to a layer that already holds it changes nothing. */
  lemma AppliedIdempotent(m: Layer, region: seq<Cell>, config: seq<bool>)
    requires |config| == |region|
    ensures Applied(Applied(m, region, config), region, config) == Applied(m, region, config)
  {
    var a := Applied(m, region, config);
    forall c | c in m ensures Applied(a, region, config)[c] == a[c] {
      ApplyMarkFacts(region, config, c, Unmark(a[c]), Unmark(m[c]));
      ApplyMarkFacts(region, config, c, Unmark(m[c]), Unmark(m[c]));
      UnmarkIdempotent(m[c]);
    }
  }

  /** Applying depends only on the unmarked values outside the region. */
  lemma AppliedStable(m: Layer, m': Layer, region: seq<Cell>, config: seq<bool>)
    requires |config| == |region|
    requires m'.Keys == m.Keys
    requires forall c :: c in m && c !in region ==> Unmark(m'[c]) == Unmark(m[c])
    ensures Applied(m', region, config) == Applied(m, region, config)
  {
    forall c | c in m ensures Applied(m', region, config)[c] == Applied(m, region, config)[c] {
      ApplyMarkFacts(region, config, c, Unmark(m'[c]), Unmark(m[c]));
    }
  }

  /** The cells marked v. */
  function MarkedWith(m: Layer, v: int): (s: set<Cell>)
    ensures forall c :: c in s <==> c in m && m[c] == v
  {
    set c | c in m && m[c] == v
  }

  /** isDoublePeripheryIdicator's condition under layer m: some neighbour is marked 1 and some
      neighbour is marked 2. */
  predicate DoubleIn(m: Layer, c: Cell) {
    (exists k :: 0 <= k < 8 && Neighbors(c.0, c.1)[k] in MarkedWith(m, 1)) &&
    (exists k :: 0 <= k < 8 && Neighbors(c.0, c.1)[k] in MarkedWith(m, 2))
  }

  /** Two layers that agree wherever either holds 1, 2 or 100 agree on which indicators are
      double and on which cells are configured mines. */
  lemma SameChoices(m: Layer, m': Layer, c: Cell)
    requires m'.Keys == m.Keys
    requires forall d :: d in m && (m[d] in {1, 2, 100} || m'[d] in {1, 2, 100}) ==> m'[d] == m[d]
    ensures DoubleIn(m', c) == DoubleIn(m, c)
    ensures MarkedWith(m', 100) == MarkedWith(m, 100)
  {
  }

  /** An indicator of display layer d: it shows 1 to 8. */
  predicate IndicatorIn(d: Layer, c: Cell) {
    c in d && 1 <= d[c] <= 8
  }

  /** numAdjacentConfigMines under mark layer m and display layer d: neighbours marked 100
      or flagged. */
  function ConfigMinesIn(m: Layer, d: Layer, c: Cell): nat {
    CountIn(Neighbors(c.0, c.1), MarkedWith(m, 100) + MarkedWith(d, FLAGGED))
  }

  /** The test isValidConfiguration makes of one cross cell c; a double indicator is not
      checked. */
  predicate CellOK(m: Layer, d: Layer, c: Cell) {
    IndicatorIn(d, c) && !DoubleIn(m, c) ==> ConfigMinesIn(m, d, c) == d[c]
  }

  /** Every cell of cs passes, checked first to last. */
  predicate CellsOK(m: Layer, d: Layer, cs: seq<Cell>)
    decreases |cs|
  {
    cs == [] || (CellsOK(m, d, cs[..|cs| - 1]) && CellOK(m, d, cs[|cs| - 1]))
  }

  lemma {:induction false} CellsOKEvery(m: Layer, d: Layer, cs: seq<Cell>)
    ensures CellsOK(m, d, cs) <==> forall k :: 0 <= k < |cs| ==> CellOK(m, d, cs[k])
    decreases |cs|
  {
    if cs != [] {
      var n := |cs| - 1;
      CellsOKEvery(m, d, cs[..n]);
      assert forall k :: 0 <= k < n ==> cs[..n][k] == cs[k];
    }
  }

  lemma CellsOKSnoc(m: Layer, d: Layer, cs: seq<Cell>, k: nat)
    requires k < |cs|
    ensures CellsOK(m, d, cs[..k + 1]) <==> CellsOK(m, d, cs[..k]) && CellOK(m, d, cs[k])
  {
    assert cs[..k + 1][..k] == cs[..k];
  }

  /** The four cross cells of square s pass, in isValidConfiguration's order. */
  predicate SquareOK(m: Layer, d: Layer, s: Cell) {
    CellsOK(m, d, CheckOrder(s.0, s.1))
  }

  /** Every square of region passes, first to last. */
  predicate SquaresOK(m: Layer, d: Layer, region: seq<Cell>)
    decreases |region|
  {
    region == [] || (SquaresOK(m, d, region[..|region| - 1]) && SquareOK(m, d, region[|region| - 1]))
  }

  lemma SquaresOKSnoc(m: Layer, d: Layer, region: seq<Cell>, q: nat)
    requires q < |region|
    ensures SquaresOK(m, d, region[..q + 1]) <==> SquaresOK(m, d, region[..q]) && SquareOK(m, d, region[q])
  {
    assert region[..q + 1][..q] == region[..q];
  }

  lemma {:induction false} SquaresOKEvery(m: Layer, d: Layer, region: seq<Cell>)
    ensures SquaresOK(m, d, region) <==> forall q :: 0 <= q < |region| ==> SquareOK(m, d, region[q])
    decreases |region|
  {
    if region != [] {
      var n := |region| - 1;
      SquaresOKEvery(m, d, region[..n]);
      assert forall q :: 0 <= q < n ==> region[..n][q] == region[q];
    }
  }

  /** What isValidConfiguration decides with flags left to place: no more mines than flags,
      and around every region cell each checked indicator sees as many configured mines and
      flags as it shows, under the layer the configuration is applied to. */
  predicate AcceptsIn(m: Layer, d: Layer, flags: int, region: seq<Cell>, config: seq<bool>)
    requires |config| == |region|
  {
    Counter.CountTrue(config) <= flags && SquaresOK(Applied(m, region, config), d, region)
  }

  /** isValidConfiguration's verdict as a test on configurations of any length. */
  function Acceptance(m: Layer, d: Layer, flags: int, region: seq<Cell>): seq<bool> -> bool {
    c => |c| == |region| && AcceptsIn(m, d, flags, region, c)
  }

  /** The verdicts of the first k rounds of computeProbabilities' enumeration. */
  function Verdicts(m: Layer, d: Layer, flags: int, region: seq<Cell>, k: nat): (r: seq<bool>)
    ensures |r| == k
  {
    Judged(Acceptance(m, d, flags, region), |region|, k)
  }

  /** The probability computeProbabilities gives candidate i once all 2^n configurations of
      the n region cells have been judged. */
  function Odds(m: Layer, d: Layer, flags: int, region: seq<Cell>, i: nat): Ratio
    requires i < |region|
  {
    Tally(Acceptance(m, d, flags, region), |region|, i)
  }

  /** The probability lies in [0, 1]. It is NaN exactly when no configuration is accepted,
      0 exactly when some are and none of them places a mine on candidate i, and 1 exactly
      when some are and all of them do. */
  lemma ProbabilityMeaning(m: Layer, d: Layer, flags: int, region: seq<Cell>, i: nat)
    requires i < |region|
    ensures InUnit(Odds(m, d, flags, region, i))
    ensures IsNaN(Odds(m, d, flags, region, i)) <==>
      forall c :: |c| == |region| ==> !AcceptsIn(m, d, flags, region, c)
    ensures IsZero(Odds(m, d, flags, region, i)) <==>
      (exists c :: |c| == |region| && AcceptsIn(m, d, flags, region, c)) &&
      (forall c :: |c| == |region| && c[i] ==> !AcceptsIn(m, d, flags, region, c))
    ensures IsOne(Odds(m, d, flags, region, i)) <==>
      (exists c :: |c| == |region| && AcceptsIn(m, d, flags, region, c)) &&
      (forall c :: |c| == |region| && !c[i] ==> !AcceptsIn(m, d, flags, region, c))
  {
    var f := Acceptance(m, d, flags, region);
    TallyMeaning(f, |region|, i);
    assert forall c :: f(c) == (|c| == |region| && AcceptsIn(m, d, flags, region, c));
  }

  /** What acceptance means: no more configured mines than flags left, and every indicator
      of the display around a region cell, checked in turn and not double, sees exactly as
      many neighbours marked as mines or flagged as it shows. */
  lemma AcceptsMeaning(m: Layer, d: Layer, flags: int, region: seq<Cell>, config: seq<bool>)
    requires |config| == |region|
    ensures AcceptsIn(m, d, flags, region, config) <==>
      Counter.CountTrue(config) <= flags &&
      forall q, k :: 0 <= q < |region| && 0 <= k < 4 ==>
        CellOK(Applied(m, region, config), d, CheckOrder(region[q].0, region[q].1)[k])
  {
    var a := Applied(m, region, config);
    SquaresOKEvery(a, d, region);
    forall q | 0 <= q < |region| {
      CellsOKEvery(a, d, CheckOrder(region[q].0, region[q].1));
    }
  }

  /** On a region without repetitions over the layer's cells, the cells the applied
      configuration marks as mines are exactly the region cells whose entry is true. */
  lemma AppliedMines(m: Layer, region: seq<Cell>, config: seq<bool>)
    requires |config| == |region| && Distinct(region)
    requires forall k :: 0 <= k < |region| ==> region[k] in m
    ensures forall c :: c in MarkedWith(Applied(m, region, config), 100) <==>
      exists k :: 0 <= k < |region| && region[k] == c && config[k]
  {
    var a := Applied(m, region, config);
    forall c ensures c in MarkedWith(a, 100) <==> exists k :: 0 <= k < |region| && region[k] == c && config[k] {
      if c in m {
        ApplyMarkFacts(region, config, c, Unmark(m[c]), Unmark(m[c]));
        if c in region {
          var k :| 0 <= k < |region| && region[k] == c;
          assert a[c] == (if config[k] then 100 else 2);
          assert forall j :: 0 <= j < |region| && region[j] == c ==> j == k;
        }
      }
    }
  }

  /** An empty region has one configuration, the empty one, which is accepted exactly when
      the flag counter is not negative: then the total is 1. */
  lemma EmptyRegionTotal(m: Layer, d: Layer, flags: int)
    ensures Counter.CountTrue(Verdicts(m, d, flags, [], Counter.Pow2(0))) == (if flags >= 0 then 1 else 0)
  {
    JudgedAt(Acceptance(m, d, flags, []), 0, 1);
    assert Counter.FromValue(0, 0) == [];
    assert Verdicts(m, d, flags, [], 1) == [AcceptsIn(m, d, flags, [], [])];
  }
}
