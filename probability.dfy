/** Mine probabilities as the pair (mine count, total valid configurations), compared the way
    the JavaScript comparisons on their quotient behave, and the tank solver's choice of guess. */
module Probability {
  import opened Cells
  import Counter

  datatype Option<T> = None | Some(value: T)

  /** mineCounts[i] / totalConfigs; a zero total is the quotient NaN. */
  datatype Ratio = Ratio(mines: nat, total: nat)

  datatype Candidate = Candidate(cell: Cell, prob: Ratio)

  predicate IsNaN(p: Ratio) {
    p.total == 0
  }

  /** `probability === 0` */
  predicate IsZero(p: Ratio) {
    p.total > 0 && p.mines == 0
  }

  /** `probability === 1` */
  predicate IsOne(p: Ratio) {
    p.total > 0 && p.mines == p.total
  }

  /** `p <= q` on the quotients; any comparison with NaN is false. */
  predicate LessEq(p: Ratio, q: Ratio) {
    p.total > 0 && q.total > 0 && p.mines * q.total <= q.mines * p.total
  }

  /** A probability in [0, 1] (or NaN). */
  predicate InUnit(p: Ratio) {
    p.mines <= p.total
  }

  /** The initial `min = 100` of makeTankSolverMove. */
  const Hundred := Ratio(100, 1)

  lemma LessEqTrans(p: Ratio, q: Ratio, r: Ratio)
    requires LessEq(p, q) && LessEq(q, r)
    ensures LessEq(p, r)
  {
    var a, b, c, d, e, f := p.mines, p.total, q.mines, q.total, r.mines, r.total;
    MulMono(a * d, c * b, f);
    MulMono(c * f, e * d, b);
    Swap(c, b, f);
    Swap(a, d, f);
    Swap(e, d, b);
    // (a * f) * d <= (e * b) * d, and d > 0
    if a * f > e * b {
      MulStrict(e * b, a * f, d);
    }
  }

  lemma Swap(x: int, y: int, z: int)
    ensures (x * y) * z == (x * z) * y
  {
  }

  lemma MulMono(x: int, y: int, k: nat)
    requires x <= y
    ensures x * k <= y * k
  {
  }

  lemma MulStrict(x: int, y: int, k: int)
    requires x < y && k > 0
    ensures x * k < y * k
  {
  }

  lemma LessEqTotal(p: Ratio, q: Ratio)
    requires !IsNaN(p) && !IsNaN(q)
    ensures LessEq(p, q) || LessEq(q, p)
  {
  }

  /** Every real probability is at most the sentinel 100. */
  lemma BelowHundred(p: Ratio)
    requires InUnit(p) && !IsNaN(p)
    ensures LessEq(p, Hundred)
  {
  }

  /** The scan of makeTankSolverMove's loop over the flattened candidates from position i on,
      carrying `min` and `bestMove` (an index). */
  function Scan(ps: seq<Ratio>, i: nat, min: Ratio, best: Option<nat>): Option<nat>
    requires i <= |ps|
    decreases |ps| - i
  {
    if i == |ps| then best
    else if LessEq(ps[i], min) then Scan(ps, i + 1, ps[i], Some(i))
    else Scan(ps, i + 1, min, best)
  }

  function Guess(ps: seq<Ratio>): Option<nat> {
    Scan(ps, 0, Hundred, None)
  }

  /** The candidate chosen as the guess is the last one of minimal probability: it is finite
      (not NaN), no candidate is smaller, and every later candidate is strictly larger. When
      none is finite there is no guess. */
  lemma GuessIsLastMinimal(ps: seq<Ratio>)
    requires forall i :: 0 <= i < |ps| ==> InUnit(ps[i])
    ensures Guess(ps).None? <==> forall i :: 0 <= i < |ps| ==> IsNaN(ps[i])
    ensures Guess(ps).Some? ==>
      var k := Guess(ps).value;
      k < |ps| && !IsNaN(ps[k]) &&
      (forall j :: 0 <= j < |ps| && !IsNaN(ps[j]) ==> LessEq(ps[k], ps[j])) &&
      (forall j :: k < j < |ps| && !IsNaN(ps[j]) ==> !LessEq(ps[j], ps[k]))
  {
    ScanInvariant(ps, 0, Hundred, None);
  }

  /** What the scan from position i keeps: min is ps[best], no earlier finite candidate is
      below it, and none after best is at or below it. */
  predicate ScanState(ps: seq<Ratio>, i: nat, min: Ratio, best: Option<nat>)
    requires i <= |ps|
  {
    (best.None? ==> min == Hundred && forall j :: 0 <= j < i ==> IsNaN(ps[j])) &&
    (best.Some? ==>
      best.value < i && min == ps[best.value] && !IsNaN(min) &&
      (forall j :: 0 <= j < i && !IsNaN(ps[j]) ==> LessEq(min, ps[j])) &&
      (forall j :: best.value < j < i && !IsNaN(ps[j]) ==> !LessEq(ps[j], min)))
  }

  lemma {:induction false} ScanInvariant(ps: seq<Ratio>, i: nat, min: Ratio, best: Option<nat>)
    requires i <= |ps|
    requires forall j :: 0 <= j < |ps| ==> InUnit(ps[j])
    requires ScanState(ps, i, min, best)
    ensures var r := Scan(ps, i, min, best);
      (r.None? <==> best.None? && forall j :: i <= j < |ps| ==> IsNaN(ps[j])) &&
      (r.Some? ==>
         r.value < |ps| && !IsNaN(ps[r.value]) &&
         (forall j :: 0 <= j < |ps| && !IsNaN(ps[j]) ==> LessEq(ps[r.value], ps[j])) &&
         (forall j :: r.value < j < |ps| && !IsNaN(ps[j]) ==> !LessEq(ps[j], ps[r.value])))
    decreases |ps| - i
  {
    if i < |ps| {
      if LessEq(ps[i], min) {
        forall j | 0 <= j < i && !IsNaN(ps[j]) ensures LessEq(ps[i], ps[j]) {
          LessEqTrans(ps[i], min, ps[j]);
        }
        assert ScanState(ps, i + 1, ps[i], Some(i));
        ScanInvariant(ps, i + 1, ps[i], Some(i));
      } else {
        if !IsNaN(ps[i]) {
          BelowHundred(ps[i]);
          LessEqTotal(ps[i], min);
        }
        assert ScanState(ps, i + 1, min, best);
        ScanInvariant(ps, i + 1, min, best);
      }
    }
  }

  /** The candidates' probabilities in visiting order: regions first to last, each in order. */
  function Flatten(regions: seq<seq<Candidate>>): (r: seq<Candidate>)
    ensures |regions| == 0 ==> r == []
  {
    if regions == [] then [] else regions[0] + Flatten(regions[1..])
  }

  lemma {:induction false} FlattenAppend(a: seq<seq<Candidate>>, b: seq<seq<Candidate>>)
    ensures Flatten(a + b) == Flatten(a) + Flatten(b)
  {
    if a != [] {
      assert (a + b)[1..] == a[1..] + b;
      FlattenAppend(a[1..], b);
    } else {
      assert a + b == b;
    }
  }

  /** The candidates of region occupy flat from position base on. */
  predicate SitsAt(flat: seq<Candidate>, base: nat, region: seq<Candidate>) {
    base + |region| <= |flat| && forall s :: 0 <= s < |region| ==> flat[base + s] == region[s]
  }

  /** Where region r of the list sits in the flattened list: after the regions before it,
      entry by entry. */
  lemma FlattenAt(regions: seq<seq<Candidate>>, r: nat)
    requires r < |regions|
    ensures |Flatten(regions[..r + 1])| == |Flatten(regions[..r])| + |regions[r]|
    ensures SitsAt(Flatten(regions), |Flatten(regions[..r])|, regions[r])
  {
    assert regions[..r + 1] == regions[..r] + [regions[r]];
    FlattenAppend(regions[..r], [regions[r]]);
    assert Flatten([regions[r]]) == regions[r] + Flatten([]);
    assert regions == regions[..r + 1] + regions[r + 1..];
    FlattenAppend(regions[..r + 1], regions[r + 1..]);
  }

  /** The start of every region in the flattened list: offs[r] is the length of the regions
      before r, and region r sits there. */
  lemma Layout(regions: seq<seq<Candidate>>) returns (offs: seq<nat>)
    ensures |offs| == |regions| + 1 && offs[0] == 0 && offs[|regions|] == |Flatten(regions)|
    ensures forall r {:trigger regions[r]} :: 0 <= r < |regions| ==>
      offs[r + 1] == offs[r] + |regions[r]| && SitsAt(Flatten(regions), offs[r], regions[r])
  {
    offs := seq(|regions| + 1, r requires 0 <= r <= |regions| => |Flatten(regions[..r])|);
    assert regions[..0] == [];
    assert regions[..|regions|] == regions;
    forall r | 0 <= r < |regions|
      ensures offs[r + 1] == offs[r] + |regions[r]| && SitsAt(Flatten(regions), offs[r], regions[r])
    {
      FlattenAt(regions, r);
    }
  }

  function CellsOf(cs: seq<Candidate>): (r: seq<Cell>)
    ensures |r| == |cs|
    ensures forall i :: 0 <= i < |cs| ==> r[i] == cs[i].cell
  {
    if cs == [] then [] else [cs[0].cell] + CellsOf(cs[1..])
  }

  /** Appending a candidate appends its cell. */
  lemma CellsOfSnoc(cs: seq<Candidate>, c: Candidate)
    ensures CellsOf(cs + [c]) == CellsOf(cs) + [c.cell]
  {
  }

  function Probs(cs: seq<Candidate>): (r: seq<Ratio>)
    ensures |r| == |cs|
    ensures forall i :: 0 <= i < |cs| ==> r[i] == cs[i].prob
  {
    if cs == [] then [] else [cs[0].prob] + Probs(cs[1..])
  }

  /** The number of valid configurations, and of valid configurations placing a mine on
      candidate i, when validity[k] is the verdict on configs[k]. */
  function MineTally(validity: seq<bool>, configs: seq<seq<bool>>, i: nat): nat
    requires |validity| == |configs|
    requires forall k :: 0 <= k < |configs| ==> i < |configs[k]|
  {
    if validity == [] then 0
    else Counter.Bit(validity[0] && configs[0][i]) + MineTally(validity[1..], configs[1..], i)
  }

  /** A candidate's count never exceeds the total, so each probability lies in [0, 1]; it is 0
      exactly when no valid configuration puts a mine there and equals the total exactly when
      every valid configuration does. */
  lemma {:induction false} TallyBounds(validity: seq<bool>, configs: seq<seq<bool>>, i: nat)
    requires |validity| == |configs|
    requires forall k :: 0 <= k < |configs| ==> i < |configs[k]|
    ensures MineTally(validity, configs, i) <= Counter.CountTrue(validity)
    ensures MineTally(validity, configs, i) == 0 <==>
      forall k :: 0 <= k < |configs| && validity[k] ==> !configs[k][i]
    ensures MineTally(validity, configs, i) == Counter.CountTrue(validity) <==>
      forall k :: 0 <= k < |configs| && validity[k] ==> configs[k][i]
  {
    if validity != [] {
      TallyBounds(validity[1..], configs[1..], i);
      forall k | 1 <= k < |configs| ensures validity[k] == validity[1..][k - 1] && configs[k] == configs[1..][k - 1] {
      }
      if MineTally(validity, configs, i) == 0 {
        assert forall k :: 0 <= k < |configs| && validity[k] ==> !configs[k][i] by {
          forall k | 0 <= k < |configs| && validity[k] ensures !configs[k][i] {
            if k > 0 { assert validity[1..][k - 1]; }
          }
        }
      }
      if forall k :: 0 <= k < |configs| && validity[k] ==> !configs[k][i] {
        assert forall k :: 0 <= k < |configs| - 1 && validity[1..][k] ==> !configs[1..][k][i] by {
          forall k | 0 <= k < |configs| - 1 && validity[1..][k] ensures !configs[1..][k][i] {
            assert validity[k + 1];
          }
        }
      }
      if MineTally(validity, configs, i) == Counter.CountTrue(validity) {
        Counter.CountTrueBound(validity[1..]);
        assert forall k :: 0 <= k < |configs| && validity[k] ==> configs[k][i] by {
          forall k | 0 <= k < |configs| && validity[k] ensures configs[k][i] {
            if k > 0 { assert validity[1..][k - 1]; }
          }
        }
      }
      if forall k :: 0 <= k < |configs| && validity[k] ==> configs[k][i] {
        assert forall k :: 0 <= k < |configs| - 1 && validity[1..][k] ==> configs[1..][k][i] by {
          forall k | 0 <= k < |configs| - 1 && validity[1..][k] ensures configs[1..][k][i] {
            assert validity[k + 1];
          }
        }
      }
    }
  }

  /** One more round of the enumeration adds its verdict to each tally. */
  lemma {:induction false} MineTallySnoc(validity: seq<bool>, configs: seq<seq<bool>>, i: nat, b: bool, c: seq<bool>)
    requires |validity| == |configs|
    requires forall k :: 0 <= k < |configs| ==> i < |configs[k]|
    requires i < |c|
    ensures MineTally(validity + [b], configs + [c], i) == MineTally(validity, configs, i) + Counter.Bit(b && c[i])
  {
    if validity != [] {
      assert (validity + [b])[1..] == validity[1..] + [b];
      assert (configs + [c])[1..] == configs[1..] + [c];
      MineTallySnoc(validity[1..], configs[1..], i, b, c);
    }
  }

  /** The verdicts of test f on the first k configurations of length n in counting order. */
  function Judged(f: seq<bool> -> bool, n: nat, k: nat): (r: seq<bool>)
    ensures |r| == k
  {
    if k == 0 then [] else Judged(f, n, k - 1) + [f(Counter.FromValue(k - 1, n))]
  }

  /** Round j judges the configuration numbered j. */
  lemma {:induction false} JudgedAt(f: seq<bool> -> bool, n: nat, k: nat)
    ensures forall j :: 0 <= j < k ==> Judged(f, n, k)[j] == f(Counter.FromValue(j, n))
  {
    if k > 0 {
      JudgedAt(f, n, k - 1);
    }
  }

  /** The share of the 2^n configurations of length n passing f that mine candidate i. */
  function Tally(f: seq<bool> -> bool, n: nat, i: nat): Ratio
    requires i < n
  {
    var N := Counter.Pow2(n);
    var v := Judged(f, n, N);
    Ratio(MineTally(v, Counter.Configs(n, N), i), Counter.CountTrue(v))
  }

  /** A full tally lies in [0, 1]; it is NaN exactly when no configuration passes, 0 exactly
      when some pass and none that mines i does, 1 exactly when some pass and none that leaves
      i free does. */
  lemma TallyMeaning(f: seq<bool> -> bool, n: nat, i: nat)
    requires i < n
    ensures InUnit(Tally(f, n, i))
    ensures IsNaN(Tally(f, n, i)) <==> forall c :: |c| == n ==> !f(c)
    ensures IsZero(Tally(f, n, i)) <==>
      (exists c :: |c| == n && f(c)) && (forall c :: |c| == n && c[i] ==> !f(c))
    ensures IsOne(Tally(f, n, i)) <==>
      (exists c :: |c| == n && f(c)) && (forall c :: |c| == n && !c[i] ==> !f(c))
  {
    var N := Counter.Pow2(n);
    var v, cs := Judged(f, n, N), Counter.Configs(n, N);
    TallyBounds(v, cs, i);
    Counter.CountTrueZero(v);
    JudgedAt(f, n, N);
    // Every configuration of length n is judged, under its own number.
    forall c | |c| == n ensures Counter.Value(c) < N && cs[Counter.Value(c)] == c && v[Counter.Value(c)] == f(c) {
      Counter.ValueBound(c);
      Counter.ValueFromValue(c);
    }
    if exists c :: |c| == n && f(c) {
      var c :| |c| == n && f(c);
      assert v[Counter.Value(c)];
    }
    if forall c :: |c| == n && c[i] ==> !f(c) {
      forall k | 0 <= k < N && v[k] ensures !cs[k][i] {
        assert |cs[k]| == n && f(cs[k]);
      }
    }
    if forall c :: |c| == n && !c[i] ==> !f(c) {
      forall k | 0 <= k < N && v[k] ensures cs[k][i] {
        assert |cs[k]| == n && f(cs[k]);
      }
    }
  }
}
