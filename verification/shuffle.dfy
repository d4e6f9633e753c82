/**
  The Fisher-Yates shuffle of `shuffleArray` in Durstenfeld's in-place form
  (Knuth, The Art of Computer Programming Vol. 2, section 3.4.2,
  Algorithm P). The random source is a parameter: `choices[i]` is the slot
  drawn at step `i`, and `choices[0]` is never drawn.
 */
module FisherYates {
  import opened Seqs

  /** Every step `i` from `1` up to `hi` draws a slot in `[0, i]`. */
  predicate ChoicesInRange(choices: seq<int>, hi: int) {
    forall i | 1 <= i <= hi && i < |choices| :: 0 <= choices[i] <= i
  }

  /** A choice sequence for shuffling `n` values. */
  predicate ValidChoices(choices: seq<int>, n: int) {
    |choices| == n && ChoicesInRange(choices, n - 1)
  }

  /**
    `Math.floor(Math.random() * (i + 1))` for one draw `draw` in `[0, 1)`,
    in exact real arithmetic: a slot in `[0, i]`.
   */
  function Pick(draw: real, i: nat): (j: int)
    requires 0.0 <= draw < 1.0
    ensures 0 <= j <= i
  {
    var n := (i + 1) as real;
    var scaled := draw * n;
    assert scaled < n by {
      PositiveProduct(1.0 - draw, n);
      assert n - scaled == (1.0 - draw) * n;
    }
    assert 0.0 <= scaled by {
      if draw > 0.0 {
        PositiveProduct(draw, n);
      }
    }
    scaled.Floor
  }

  lemma PositiveProduct(a: real, b: real)
    requires a > 0.0 && b > 0.0
    ensures a * b > 0.0
  {
  }

  /** Every slot in `[0, i]` is drawn by some value of `Math.random()`. */
  lemma PickCovers(i: nat, j: int)
    requires 0 <= j <= i
    ensures 0.0 <= j as real / (i + 1) as real < 1.0
    ensures Pick(j as real / (i + 1) as real, i) == j
  {
    var d := j as real / (i + 1) as real;
    assert d * (i + 1) as real == j as real;
  }

  /** The slots drawn by a sequence of `Math.random()` values; index 0 is never drawn. */
  function ChoicesOf(draws: seq<real>): (choices: seq<int>)
    requires forall i | 0 <= i < |draws| :: 0.0 <= draws[i] < 1.0
    ensures ValidChoices(choices, |draws|)
  {
    seq(|draws|, i requires 0 <= i < |draws| => if i == 0 then 0 else Pick(draws[i], i))
  }

  /** The loop of `shuffleArray` from step `i` down to step 1. */
  function ShuffleDown<T>(s: seq<T>, choices: seq<int>, i: int): (r: seq<T>)
    requires i < |s| && |choices| == |s| && ChoicesInRange(choices, i)
    ensures |r| == |s|
    decreases i
  {
    if i <= 0 then s else ShuffleDown(Exchange(s, i, choices[i]), choices, i - 1)
  }

  /** Each step is a transposition, so the steps together only rearrange. */
  lemma {:induction false} ShuffleDownPreservesMultiset<T>(s: seq<T>, choices: seq<int>, i: int)
    requires i < |s| && |choices| == |s| && ChoicesInRange(choices, i)
    ensures multiset(ShuffleDown(s, choices, i)) == multiset(s)
    decreases i
  {
    if i > 0 {
      ExchangePreservesMultiset(s, i, choices[i]);
      ShuffleDownPreservesMultiset(Exchange(s, i, choices[i]), choices, i - 1);
    }
  }

  /**
    `shuffleArray` as a pure function of its input and the drawn slots: a
    rearrangement of its input, and the identity on inputs of length 0 or 1.
   */
  function Shuffle<T>(s: seq<T>, choices: seq<int>): (r: seq<T>)
    requires ValidChoices(choices, |s|)
    ensures |r| == |s|
    ensures multiset(r) == multiset(s)
    ensures |s| <= 1 ==> r == s
  {
    ShuffleDownPreservesMultiset(s, choices, |s| - 1);
    ShuffleDown(s, choices, |s| - 1)
  }

  /**
    `shuffleArray`: works on a copy of its argument (the `slice()`; here the
    argument is a value, so the caller's sequence cannot change), and for `i`
    from the last slot down to 1 exchanges slot `i` with the slot drawn from
    `[0, i]` by the draw for step `i`.
   */
  method ShuffleArray<T>(input: seq<T>, draws: seq<real>) returns (r: seq<T>)
    requires |draws| == |input|
    requires forall i | 0 <= i < |draws| :: 0.0 <= draws[i] < 1.0
    ensures r == Shuffle(input, ChoicesOf(draws))
    ensures multiset(r) == multiset(input)
  {
    ghost var choices := ChoicesOf(draws);
    var copy := input;
    var i := |copy| - 1;
    while i > 0
      invariant -1 <= i < |copy| == |input|
      invariant ShuffleDown(copy, choices, i) == Shuffle(input, choices)
    {
      var j := Pick(draws[i], i);
      assert j == choices[i];
      ShuffleDownStep(copy, choices, i);
      copy := copy[i := copy[j]][j := copy[i]];
      i := i - 1;
    }
    r := copy;
  }

  /** Step `i` leaves every slot above `i` alone. */
  lemma {:induction false} ShuffleDownKeepsAbove<T>(s: seq<T>, choices: seq<int>, i: int, k: int)
    requires -1 <= i < |s| && |choices| == |s| && ChoicesInRange(choices, i)
    requires i < k < |s|
    ensures ShuffleDown(s, choices, i)[k] == s[k]
    decreases i
  {
    if i > 0 {
      ShuffleDownKeepsAbove(Exchange(s, i, choices[i]), choices, i - 1, k);
    }
  }

  /** After steps `i` down to 1, slot `i` holds the value that was drawn for it. */
  lemma ShuffleDownSettles<T>(s: seq<T>, choices: seq<int>, i: int)
    requires 0 < i < |s| && |choices| == |s| && ChoicesInRange(choices, i)
    ensures ShuffleDown(s, choices, i)[i] == s[choices[i]]
  {
    ShuffleDownKeepsAbove(Exchange(s, i, choices[i]), choices, i - 1, i);
  }

  /** A run in which every step draws its own slot (`j = i`) changes nothing. */
  lemma {:induction false} ShuffleDownStayingPut<T>(s: seq<T>, choices: seq<int>, i: int)
    requires i < |s| && |choices| == |s|
    requires forall k | 1 <= k <= i :: choices[k] == k
    ensures ShuffleDown(s, choices, i) == s
    decreases i
  {
    if i > 0 {
      assert Exchange(s, i, i) == s;
      ShuffleDownStayingPut(s, choices, i - 1);
    }
  }

  /** If every drawn slot is `j = i`, the shuffle returns its input unchanged. */
  lemma ShuffleStayingPut<T>(s: seq<T>, choices: seq<int>)
    requires |choices| == |s|
    requires forall k | 1 <= k < |s| :: choices[k] == k
    ensures ValidChoices(choices, |s|)
    ensures Shuffle(s, choices) == s
  {
    ShuffleDownStayingPut(s, choices, |s| - 1);
  }

  /** The values above slot `i` of `s` and `p` agree. */
  predicate AgreeAbove<T(==)>(s: seq<T>, p: seq<T>, i: int)
    requires |s| == |p|
  {
    forall k | 0 <= k < |s| && i < k :: s[k] == p[k]
  }

  /** Exchanging inside the first `i + 1` slots is exchanging inside that prefix. */
  lemma PrefixOfExchange<T>(s: seq<T>, i: int, j: int)
    requires 0 <= j <= i < |s|
    ensures Exchange(s, i, j)[..i + 1] == Exchange(s[..i + 1], i, j)
  {
  }

  /** A value common to the ends of two sequences can be cancelled from their multisets. */
  lemma CancelLast<T>(a: seq<T>, b: seq<T>, x: T)
    requires multiset(a + [x]) == multiset(b + [x])
    ensures multiset(a) == multiset(b)
  {
    assert multiset(a + [x]) == multiset(a) + multiset{x};
    assert multiset(b + [x]) == multiset(b) + multiset{x};
    assert multiset(a) == multiset(a + [x]) - multiset{x};
  }

  /** One step of the construction: drawing the slot `j` that holds `p[i]` settles slot `i`. */
  lemma ReachStep<T>(s: seq<T>, p: seq<T>, i: int, j: int)
    requires 0 < i < |s| == |p| && 0 <= j <= i && s[j] == p[i]
    requires AgreeAbove(s, p, i)
    requires multiset(s[..i + 1]) == multiset(p[..i + 1])
    ensures AgreeAbove(Exchange(s, i, j), p, i - 1)
    ensures multiset(Exchange(s, i, j)[..i]) == multiset(p[..i])
  {
    var t := Exchange(s, i, j);
    PrefixOfExchange(s, i, j);
    ExchangePreservesMultiset(s[..i + 1], i, j);
    assert t[..i + 1] == t[..i] + [p[i]];
    assert p[..i + 1] == p[..i] + [p[i]];
    CancelLast(t[..i], p[..i], p[i]);
  }

  /** With no steps left, agreement above slot `i <= 0` and in the prefix means `s` is `p`. */
  lemma ReachBase<T>(s: seq<T>, p: seq<T>, i: int)
    requires -1 <= i <= 0 && i < |s| == |p|
    requires AgreeAbove(s, p, i)
    requires multiset(s[..i + 1]) == multiset(p[..i + 1])
    ensures s == p
  {
    if i == 0 {
      assert s[..1] == [s[0]] && p[..1] == [p[0]];
      assert s[0] in multiset{p[0]};
    }
  }

  /**
    Construction behind `ShuffleReachesEveryOrder`: when the slots above `i`
    already agree with `p` and the slots up to `i` hold the same values as
    `p`'s, some choices for steps `i` down to 1 turn `s` into `p`. The
    choices above `i` are taken from `acc`.
   */
  lemma {:induction false} ShuffleDownReaches<T>(s: seq<T>, p: seq<T>, i: int, acc: seq<int>) returns (choices: seq<int>)
    requires -1 <= i < |s| == |p| == |acc|
    requires AgreeAbove(s, p, i)
    requires multiset(s[..i + 1]) == multiset(p[..i + 1])
    ensures |choices| == |s| && ChoicesInRange(choices, i)
    ensures forall k | i < k < |s| :: choices[k] == acc[k]
    ensures ShuffleDown(s, choices, i) == p
    decreases i
  {
    if i <= 0 {
      choices := acc;
      ReachBase(s, p, i);
    } else {
      var j := SlotHolding(s, p, i);
      ReachStep(s, p, i, j);
      choices := ShuffleDownReaches(Exchange(s, i, j), p, i - 1, acc[i := j]);
      assert choices[i] == j;
      ShuffleDownStep(s, choices, i);
    }
  }

  /** Some slot up to `i` of `s` holds `p[i]`, when the two prefixes hold the same values. */
  lemma SlotHolding<T>(s: seq<T>, p: seq<T>, i: int) returns (j: int)
    requires 0 <= i < |s| == |p|
    requires multiset(s[..i + 1]) == multiset(p[..i + 1])
    ensures 0 <= j <= i && s[j] == p[i]
  {
    assert p[..i + 1][i] == p[i];
    assert p[i] in multiset(s[..i + 1]);
    j := IndexOf(s[..i + 1], p[i]);
  }

  /** The first step of `ShuffleDown` exchanges slot `i` with the slot drawn for it. */
  lemma ShuffleDownStep<T>(s: seq<T>, choices: seq<int>, i: int)
    requires 0 < i < |s| && |choices| == |s| && ChoicesInRange(choices, i)
    ensures ShuffleDown(s, choices, i) == ShuffleDown(Exchange(s, i, choices[i]), choices, i - 1)
  {
  }

  /**
    Every rearrangement of the input is produced by some sequence of
    draws, so no ordering is out of reach of the shuffle.
   */
  lemma ShuffleReachesEveryOrder<T>(s: seq<T>, p: seq<T>) returns (choices: seq<int>)
    requires multiset(p) == multiset(s)
    ensures ValidChoices(choices, |s|)
    ensures Shuffle(s, choices) == p
  {
    assert |p| == |multiset(p)| == |s|;
    assert s[..|s|] == s && p[..|p|] == p;
    choices := ShuffleDownReaches(s, p, |s| - 1, seq(|s|, k => 0));
  }

  /**
    On distinct values, different draws give different orders: the choices
    for steps `i` down to 1 are determined by the outcome.
   */
  lemma {:induction false} ShuffleDownInjective<T>(s: seq<T>, c: seq<int>, d: seq<int>, i: int)
    requires Distinct(s)
    requires i < |s| && |c| == |s| && |d| == |s| && ChoicesInRange(c, i) && ChoicesInRange(d, i)
    requires ShuffleDown(s, c, i) == ShuffleDown(s, d, i)
    ensures forall k | 1 <= k <= i :: c[k] == d[k]
    decreases i
  {
    if i > 0 {
      ShuffleDownSettles(s, c, i);
      ShuffleDownSettles(s, d, i);
      assert c[i] == d[i] by {
        assert s[c[i]] == s[d[i]];
      }
      var t := Exchange(s, i, c[i]);
      assert ShuffleDown(s, c, i) == ShuffleDown(t, c, i - 1);
      assert ShuffleDown(s, d, i) == ShuffleDown(t, d, i - 1);
      ExchangePreservesDistinct(s, i, c[i]);
      ShuffleDownInjective(t, c, d, i - 1);
    }
  }

  /**
    On distinct values the shuffle is one-to-one in its draws: equal
    outcomes come from equal choices at every step `1 .. |s| - 1`. With
    `ShuffleReachesEveryOrder` this makes the draws and the orders of `s`
    correspond exactly, the counting fact behind an unbiased shuffle.
   */
  lemma ShuffleInjective<T>(s: seq<T>, c: seq<int>, d: seq<int>)
    requires Distinct(s) && ValidChoices(c, |s|) && ValidChoices(d, |s|)
    requires Shuffle(s, c) == Shuffle(s, d)
    ensures forall k | 1 <= k < |s| :: c[k] == d[k]
  {
    ShuffleDownInjective(s, c, d, |s| - 1);
  }
}
