/** The configuration counter of computeProbabilities: a boolean vector read as a
    little-endian binary number (entry 0 is the least significant bit), advanced by
    nextPermutation until it wraps around. */
module Counter {

  function Pow2(n: nat): (r: nat)
    ensures r >= 1
  {
    if n == 0 then 1 else 2 * Pow2(n - 1)
  }

  function Bit(b: bool): nat {
    if b then 1 else 0
  }

  /** The number a configuration denotes. */
  function Value(c: seq<bool>): nat {
    if c == [] then 0 else Bit(c[0]) + 2 * Value(c[1..])
  }

  /** The configuration of length n denoting v (v taken modulo 2^n). */
  function FromValue(v: nat, n: nat): (r: seq<bool>)
    ensures |r| == n
  {
    if n == 0 then [] else [v % 2 == 1] + FromValue(v / 2, n - 1)
  }

  function AllFalse(n: nat): (r: seq<bool>)
    ensures |r| == n
    ensures forall k :: 0 <= k < n ==> !r[k]
  {
    if n == 0 then [] else [false] + AllFalse(n - 1)
  }

  predicate AllTrue(c: seq<bool>) {
    forall i :: 0 <= i < |c| ==> c[i]
  }

  /** nextPermutation as a value: flip leading trues to false and the first false to true;
      report false when there was no false to flip. */
  function Next(c: seq<bool>): (bool, seq<bool>) {
    if c == [] then (false, [])
    else if c[0] then
      var rest := Next(c[1..]);
      (rest.0, [false] + rest.1)
    else (true, [true] + c[1..])
  }

  /** The number of true entries: numMinesInConfig. */
  function CountTrue(c: seq<bool>): nat {
    if c == [] then 0 else Bit(c[0]) + CountTrue(c[1..])
  }

  lemma {:induction false} ValueBound(c: seq<bool>)
    ensures Value(c) < Pow2(|c|)
  {
    if c != [] {
      ValueBound(c[1..]);
    }
  }

  lemma {:induction false} AllTrueValue(c: seq<bool>)
    ensures AllTrue(c) <==> Value(c) + 1 == Pow2(|c|)
  {
    if c != [] {
      AllTrueValue(c[1..]);
      ValueBound(c[1..]);
      if AllTrue(c) {
        assert AllTrue(c[1..]);
      } else if !c[0] {
        assert Value(c) + 1 != Pow2(|c|);
      } else {
        var i :| 0 <= i < |c| && !c[i];
        assert !c[1..][i - 1];
      }
    }
  }

  /** nextPermutation increments the number by one, and wraps all-true around to all-false,
      signalling the wrap by returning false. */
  lemma {:induction false} NextIncrements(c: seq<bool>)
    ensures |Next(c).1| == |c|
    ensures Next(c).0 <==> !AllTrue(c)
    ensures Next(c).0 ==> Value(Next(c).1) == Value(c) + 1
    ensures !Next(c).0 ==> Next(c).1 == AllFalse(|c|)
  {
    if c != [] {
      NextIncrements(c[1..]);
      var rest := Next(c[1..]);
      if c[0] {
        assert AllTrue(c) <==> AllTrue(c[1..]) by {
          if AllTrue(c[1..]) {
            forall i | 0 <= i < |c| ensures c[i] {
              if i > 0 { assert c[1..][i - 1] == c[i]; }
            }
          }
        }
        assert ([false] + rest.1)[1..] == rest.1;
      } else {
        assert ([true] + c[1..])[1..] == c[1..];
      }
    }
  }

  lemma {:induction false} FromValueValue(v: nat, n: nat)
    requires v < Pow2(n)
    ensures Value(FromValue(v, n)) == v
  {
    if n > 0 {
      FromValueValue(v / 2, n - 1);
      assert FromValue(v, n)[1..] == FromValue(v / 2, n - 1);
    }
  }

  lemma {:induction false} ValueFromValue(c: seq<bool>)
    ensures FromValue(Value(c), |c|) == c
  {
    if c != [] {
      ValueFromValue(c[1..]);
      assert Value(c) / 2 == Value(c[1..]);
      assert (Value(c) % 2 == 1) == c[0];
    }
  }

  lemma {:induction false} AllFalseValue(n: nat)
    ensures AllFalse(n) == FromValue(0, n)
    ensures CountTrue(AllFalse(n)) == 0
  {
    if n > 0 {
      AllFalseValue(n - 1);
    }
  }

  /** Stepping from the configuration numbered k gives the one numbered k + 1, and the
      last, numbered 2^n - 1, is the only one after which the do-while loop stops. */
  lemma StepFromValue(k: nat, n: nat)
    requires k < Pow2(n)
    ensures Next(FromValue(k, n)).0 <==> k + 1 < Pow2(n)
    ensures Next(FromValue(k, n)).0 ==> Next(FromValue(k, n)).1 == FromValue(k + 1, n)
  {
    var c := FromValue(k, n);
    FromValueValue(k, n);
    NextIncrements(c);
    AllTrueValue(c);
    if Next(c).0 {
      ValueFromValue(Next(c).1);
    }
  }

  /** Distinct numbers below 2^n name distinct configurations, and every configuration of
      length n has a number: the enumeration meets each of the 2^n vectors exactly once. */
  lemma EnumerationExact(n: nat, j: nat, k: nat, c: seq<bool>)
    requires j < k < Pow2(n)
    requires |c| == n
    ensures FromValue(j, n) != FromValue(k, n)
    ensures Value(c) < Pow2(n) && FromValue(Value(c), n) == c
  {
    FromValueValue(j, n);
    FromValueValue(k, n);
    ValueBound(c);
    ValueFromValue(c);
  }

  lemma {:induction false} CountTrueBound(c: seq<bool>)
    ensures CountTrue(c) <= |c|
  {
    if c != [] {
      CountTrueBound(c[1..]);
    }
  }

  lemma {:induction false} CountTruePrefix(c: seq<bool>, i: nat)
    requires i < |c|
    ensures CountTrue(c[..i + 1]) == CountTrue(c[..i]) + Bit(c[i])
  {
    if i == 0 {
      assert c[..1] == [c[0]];
    } else {
      assert c[..i + 1][1..] == c[1..][..i];
      assert c[..i][1..] == c[1..][..i - 1];
      CountTruePrefix(c[1..], i - 1);
    }
  }

  /** nextPermutation, in place on the configuration array. */
  method NextPermutation(config: array<bool>) returns (more: bool)
    modifies config
    ensures (more, config[..]) == Next(old(config[..]))
  {
    ghost var c := config[..];
    var i := 0;
    while i < config.Length
      invariant 0 <= i <= config.Length
      invariant forall k :: 0 <= k < i ==> c[k] && !config[k]
      invariant forall k :: i <= k < config.Length ==> config[k] == c[k]
    {
      var carry;
      if config[i] {
        config[i] := false;
        carry := true;
      } else {
        config[i] := true;
        carry := false;
      }
      if !carry {
        NextAt(c, i);
        assert config[..] == AllFalse(i) + [true] + c[i + 1..];
        return true;
      }
      i := i + 1;
    }
    NextAllTrue(c);
    assert config[..] == AllFalse(|c|);
    return false;
  }

  lemma {:induction false} NextAt(c: seq<bool>, i: nat)
    requires i < |c| && !c[i]
    requires forall k :: 0 <= k < i ==> c[k]
    ensures Next(c) == (true, AllFalse(i) + [true] + c[i + 1..])
  {
    if i > 0 {
      NextAt(c[1..], i - 1);
      assert c[1..][i..] == c[i + 1..];
      assert [false] + (AllFalse(i - 1) + [true] + c[i + 1..]) == AllFalse(i) + [true] + c[i + 1..];
    } else {
      assert [true] + c[1..] == AllFalse(0) + [true] + c[1..];
    }
  }

  lemma {:induction false} NextAllTrue(c: seq<bool>)
    requires AllTrue(c)
    ensures Next(c) == (false, AllFalse(|c|))
  {
    if c != [] {
      assert AllTrue(c[1..]) by {
        forall k | 0 <= k < |c| - 1 ensures c[1..][k] {
          assert c[1..][k] == c[k + 1];
        }
      }
      NextAllTrue(c[1..]);
    }
  }

  /** numMinesInConfig. */
  method NumMinesInConfig(config: array<bool>) returns (counter: nat)
    ensures counter == CountTrue(config[..])
  {
    counter := 0;
    for i := 0 to config.Length
      invariant counter == CountTrue(config[..i])
    {
      CountTruePrefix(config[..], i);
      assert config[..][..i] == config[..i] && config[..][..i + 1] == config[..i + 1];
      if config[i] {
        counter := counter + 1;
      }
    }
    assert config[..config.Length] == config[..];
  }

  /** The configurations the do-while of computeProbabilities visits in its first k rounds. */
  function Configs(n: nat, k: nat): (r: seq<seq<bool>>)
    ensures |r| == k
    ensures forall j :: 0 <= j < k ==> r[j] == FromValue(j, n)
  {
    if k == 0 then [] else Configs(n, k - 1) + [FromValue(k - 1, n)]
  }

  lemma {:induction false} CountTrueSnoc(c: seq<bool>, b: bool)
    ensures CountTrue(c + [b]) == CountTrue(c) + Bit(b)
  {
    if c != [] {
      assert (c + [b])[1..] == c[1..] + [b];
      CountTrueSnoc(c[1..], b);
    }
  }

  /** No true entry exactly when the count is zero. */
  lemma {:induction false} CountTrueZero(c: seq<bool>)
    ensures CountTrue(c) == 0 <==> forall k :: 0 <= k < |c| ==> !c[k]
  {
    if c != [] {
      CountTrueZero(c[1..]);
      assert forall k :: 1 <= k < |c| ==> c[k] == c[1..][k - 1];
    }
  }
}
