/** Call stacks, their equality and their hash, with size_t arithmetic modulo 2^64. */
module Stacks {
  import opened Words

  /** A return address. */
  type Frame = x: int | 0 <= x < WORD_LIMIT

  /** IsTheSameStack: two empty stacks are never the same. */
  predicate IsTheSameStack(a: seq<Frame>, b: seq<Frame>) {
    |a| > 0 && |a| == |b| && a == b
  }

  /** Captured stacks hold at least one frame; on these IsTheSameStack is equality. */
  type Stack = s: seq<Frame> | |s| > 0 witness [0]

  /** IsTheSameStack is symmetric and transitive everywhere, but reflexive exactly on the stacks that
      hold a frame: an empty stack would be a key that no lookup finds again. */
  lemma SameStackReflexiveIff(a: seq<Frame>)
    ensures IsTheSameStack(a, a) <==> |a| > 0
  {
  }

  function Power(b: nat, n: nat): nat {
    if n == 0 then 1 else b * Power(b, n - 1)
  }

  /** The exact sum that the hash takes modulo 2^64: the i-th frame weighs 1000^i. */
  function WeightedSum(s: seq<Frame>, first: nat): nat {
    if s == [] then 0 else s[0] * Power(1000, first) + WeightedSum(s[1..], first + 1)
  }

  /** HashOfTheStack. */
  method HashOfTheStack(s: seq<Frame>) returns (hash: nat)
    ensures hash == Wrap(WeightedSum(s, 0))
  {
    hash := 0;
    var mult := 1;
    for i := 0 to |s|
      invariant mult == Wrap(Power(1000, i))
      invariant Wrap(hash + WeightedSum(s[i..], i)) == Wrap(WeightedSum(s, 0))
      invariant hash < WORD_LIMIT
    {
      ghost var rest := WeightedSum(s[i + 1..], i + 1);
      assert s[i..][1..] == s[i + 1..];
      StepWraps(hash, s[i], mult, Power(1000, i), rest);
      hash := Wrap(hash + Wrap(s[i] * mult));
      MulWraps(mult, Power(1000, i), 1000);
      mult := Wrap(mult * 1000);
    }
  }

  lemma ModCongruent(x: int, k: int)
    ensures Wrap(x + k * WORD_LIMIT) == Wrap(x)
  {
    var q := x / WORD_LIMIT;
    assert x == q * WORD_LIMIT + x % WORD_LIMIT;
    assert x + k * WORD_LIMIT == (q + k) * WORD_LIMIT + x % WORD_LIMIT;
  }

  lemma MulWraps(w: nat, exact: nat, f: nat)
    requires w == Wrap(exact)
    ensures Wrap(w * f) == Wrap(f * exact)
  {
    var q := exact / WORD_LIMIT;
    assert exact == q * WORD_LIMIT + w;
    assert f * exact == w * f + (f * q) * WORD_LIMIT;
    ModCongruent(w * f, f * q);
  }

  lemma AddWraps(a: int, b: int)
    ensures Wrap(Wrap(a) + b) == Wrap(a + b)
  {
    var q := a / WORD_LIMIT;
    assert a + b == (Wrap(a) + b) + q * WORD_LIMIT;
    ModCongruent(Wrap(a) + b, q);
  }

  lemma StepWraps(hash: nat, frame: nat, mult: nat, power: nat, rest: nat)
    requires mult == Wrap(power)
    ensures Wrap(Wrap(hash + Wrap(frame * mult)) + rest) == Wrap(hash + (frame * power + rest))
  {
    MulWraps(mult, power, frame);
    var p := frame * power;
    assert Wrap(frame * mult) == Wrap(p) by { assert mult * frame == frame * mult; }
    AddWraps(hash + Wrap(p), rest);
    AddWraps(p, hash + rest);
    assert hash + Wrap(p) + rest == Wrap(p) + (hash + rest);
    assert p + (hash + rest) == hash + (p + rest);
  }

  // ---- which frames the hash can see ---------------------------------------------------------

  lemma {:induction false} PowerAdd(b: nat, m: nat, n: nat)
    ensures Power(b, m + n) == Power(b, m) * Power(b, n)
  {
    if m > 0 {
      PowerAdd(b, m - 1, n);
      assert Power(b, m + n) == b * (Power(b, m - 1) * Power(b, n)) == (b * Power(b, m - 1)) * Power(b, n);
    }
  }

  lemma {:induction false} SumSplits(a: seq<Frame>, b: seq<Frame>, first: nat)
    ensures WeightedSum(a + b, first) == WeightedSum(a, first) + WeightedSum(b, first + |a|)
  {
    if a == [] {
      assert a + b == b;
    } else {
      assert (a + b)[1..] == a[1..] + b;
      SumSplits(a[1..], b, first + 1);
    }
  }

  /** From the n-th frame on every weight is a multiple of d as soon as 1000^n is. */
  lemma {:induction false} TailVanishes(s: seq<Frame>, first: nat, n: nat, d: nat, q: nat) returns (r: nat)
    requires Power(1000, n) == q * d && first >= n
    ensures WeightedSum(s, first) == r * d
    decreases |s|
  {
    if s == [] {
      r := 0;
    } else {
      PowerAdd(1000, n, first - n);
      var rest := TailVanishes(s[1..], first + 1, n, d, q);
      var f := s[0] * (q * Power(1000, first - n));
      r := f + rest;
      assert s[0] * Power(1000, first) == f * d by { Regroup(s[0], q, d, Power(1000, first - n)); }
      assert f * d + rest * d == (f + rest) * d;
    }
  }

  lemma Regroup(s: nat, q: nat, d: nat, p: nat)
    ensures s * ((q * d) * p) == (s * (q * p)) * d
  {
    assert (q * d) * p == (q * p) * d;
  }

  lemma Power1000(n: nat)
    requires n == 4 || n == 21 || n == 22
    ensures n == 4 ==> Power(1000, n) == 244140625 * 4096
    ensures n == 21 ==>
        Power(1000, n) == 54210108624275221700372640043497085571289062 * WORD_LIMIT + 0x8000_0000_0000_0000
    ensures n == 22 ==> Power(1000, n) == 54210108624275221700372640043497085571289062500 * WORD_LIMIT
  {
    assert Power(1000, 2) == 1000000;
    PowerAdd(1000, 2, 2);
    PowerAdd(1000, 4, 1);
    assert Power(1000, 1) == 1000;
    PowerAdd(1000, 5, 5);
    PowerAdd(1000, 10, 10);
    PowerAdd(1000, 20, 1);
    PowerAdd(1000, 20, 2);
  }

  function Prefix(s: seq<Frame>, n: nat): seq<Frame> {
    if |s| <= n then s else s[..n]
  }

  /** The 64-bit hash depends on no frame after the 22nd. */
  lemma HashSeesTwentyTwoFrames(a: seq<Frame>, b: seq<Frame>)
    requires Prefix(a, 22) == Prefix(b, 22)
    ensures Wrap(WeightedSum(a, 0)) == Wrap(WeightedSum(b, 0))
  {
    OnlyPrefix(a);
    OnlyPrefix(b);
  }

  lemma OnlyPrefix(s: seq<Frame>)
    ensures Wrap(WeightedSum(s, 0)) == Wrap(WeightedSum(Prefix(s, 22), 0))
  {
    if |s| > 22 {
      assert s == s[..22] + s[22..];
      SumSplits(s[..22], s[22..], 0);
      Power1000(22);
      var r := TailVanishes(s[22..], 22, 22, WORD_LIMIT, 54210108624275221700372640043497085571289062500);
      ModCongruent(WeightedSum(s[..22], 0), r);
    }
  }

  /** The bucket index depends on no frame after the fourth. */
  lemma BucketSeesFourFrames(a: seq<Frame>, b: seq<Frame>)
    requires Prefix(a, 4) == Prefix(b, 4)
    ensures Wrap(WeightedSum(a, 0)) % 4096 == Wrap(WeightedSum(b, 0)) % 4096
  {
    BucketOnlyPrefix(a);
    BucketOnlyPrefix(b);
  }

  lemma BucketOnlyPrefix(s: seq<Frame>)
    ensures Wrap(WeightedSum(s, 0)) % 4096 == WeightedSum(Prefix(s, 4), 0) % 4096
  {
    var x := WeightedSum(s, 0);
    assert Wrap(x) % 4096 == x % 4096 by {
      var q := x / WORD_LIMIT;
      assert x == (q * 0x10_0000_0000_0000) * 4096 + Wrap(x);
      SameResidue(Wrap(x), q * 0x10_0000_0000_0000);
    }
    if |s| > 4 {
      assert s == s[..4] + s[4..];
      SumSplits(s[..4], s[4..], 0);
      Power1000(4);
      var r := TailVanishes(s[4..], 4, 4, 4096, 244140625);
      SameResidue(WeightedSum(s[..4], 0), r);
    }
  }

  lemma SameResidue(x: nat, k: nat)
    ensures (x + k * 4096) % 4096 == x % 4096
  {
  }

  /** Stacks that are the same meet in one bucket, so a lookup searches where the key was added. */
  lemma SameStackSameBucket(a: seq<Frame>, b: seq<Frame>)
    requires IsTheSameStack(a, b)
    ensures Wrap(WeightedSum(a, 0)) % 4096 == Wrap(WeightedSum(b, 0)) % 4096
  {
  }

  function Zeros(n: nat): seq<Frame> {
    seq(n, _ => 0)
  }

  lemma {:induction false} ZerosWeighNothing(n: nat, first: nat)
    ensures WeightedSum(Zeros(n), first) == 0
  {
    if n > 0 {
      assert Zeros(n)[1..] == Zeros(n - 1);
      ZerosWeighNothing(n - 1, first + 1);
    }
  }

  /** Neither bound can be lowered: the 22nd frame still changes the hash. */
  lemma TwentySecondFrameCounts()
    ensures Wrap(WeightedSum(Zeros(21) + [1], 0)) != Wrap(WeightedSum(Zeros(21) + [0], 0))
  {
    SumSplits(Zeros(21), [1], 0);
    SumSplits(Zeros(21), [0], 0);
    ZerosWeighNothing(21, 0);
    Power1000(21);
    var one: seq<Frame>, zero: seq<Frame> := [1], [0];
    assert WeightedSum(one, 21) == Power(1000, 21) + WeightedSum([], 22);
    assert WeightedSum(zero, 21) == 0 + WeightedSum([], 22);
    ModCongruent(0x8000_0000_0000_0000, 54210108624275221700372640043497085571289062);
  }

  /** ... and the fourth frame still changes the bucket. */
  lemma FourthFrameCounts()
    ensures Wrap(WeightedSum([0, 0, 0, 1], 0)) % 4096 != Wrap(WeightedSum([0, 0, 0, 0], 0)) % 4096
  {
    var one: seq<Frame>, zero: seq<Frame> := [1], [0];
    assert Power(1000, 3) == 1000000000;
    SumSplits(Zeros(3), one, 0);
    SumSplits(Zeros(3), zero, 0);
    ZerosWeighNothing(3, 0);
    assert Zeros(3) + one == [0, 0, 0, 1] && Zeros(3) + zero == [0, 0, 0, 0];
    assert WeightedSum(one, 3) == Power(1000, 3) + WeightedSum([], 4);
    assert WeightedSum(zero, 3) == 0 + WeightedSum([], 4);
  }
}
