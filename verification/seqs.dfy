/**
  Sequence vocabulary shared by the shuffle and the swap: exchanging two
  slots, JavaScript's first-occurrence `indexOf`, pairwise distinctness and
  the `flatMap` that joins the rows of the board.
 */
module Seqs {

  /** `s` with the values in slots `i` and `j` exchanged (a transposition). */
  function Exchange<T>(s: seq<T>, i: int, j: int): (r: seq<T>)
    requires 0 <= i < |s| && 0 <= j < |s|
    ensures |r| == |s|
    ensures r[i] == s[j] && r[j] == s[i]
    ensures forall k | 0 <= k < |s| && k != i && k != j :: r[k] == s[k]
  {
    s[i := s[j]][j := s[i]]
  }

  /** A transposition only moves values: the multiset of values is unchanged. */
  lemma ExchangePreservesMultiset<T>(s: seq<T>, i: int, j: int)
    requires 0 <= i < |s| && 0 <= j < |s|
    ensures multiset(Exchange(s, i, j)) == multiset(s)
  {
    var t := s[i := s[j]];
    assert multiset(t) == multiset(s) - multiset{s[i]} + multiset{s[j]};
    assert multiset(t[j := s[i]]) == multiset(t) - multiset{t[j]} + multiset{s[i]};
  }

  /** The order of the two slots does not matter. */
  lemma ExchangeSymmetric<T>(s: seq<T>, i: int, j: int)
    requires 0 <= i < |s| && 0 <= j < |s|
    ensures Exchange(s, i, j) == Exchange(s, j, i)
  {
  }

  /** Exchanging the same two slots twice gives back the original sequence. */
  lemma ExchangeInvolutive<T>(s: seq<T>, i: int, j: int)
    requires 0 <= i < |s| && 0 <= j < |s|
    ensures Exchange(Exchange(s, i, j), i, j) == s
  {
  }

  /**
    JavaScript's `Array.prototype.indexOf`: the first slot holding `v`,
    or -1 when no slot does.
   */
  function IndexOf<T(==)>(s: seq<T>, v: T): (r: int)
    ensures -1 <= r < |s|
    ensures r == -1 <==> v !in s
    ensures r >= 0 ==> s[r] == v && forall k | 0 <= k < r :: s[k] != v
  {
    if |s| == 0 then -1
    else if s[0] == v then 0
    else
      var r := IndexOf(s[1..], v);
      if r < 0 then -1 else r + 1
  }

  /** No value occurs in two slots. */
  predicate Distinct<T(==)>(s: seq<T>) {
    forall i, j | 0 <= i < j < |s| :: s[i] != s[j]
  }

  /** In a sequence of distinct values, `indexOf` finds the one slot holding the value. */
  lemma IndexOfDistinct<T>(s: seq<T>, k: int)
    requires Distinct(s) && 0 <= k < |s|
    ensures IndexOf(s, s[k]) == k
  {
  }

  /** A transposition keeps the values distinct. */
  lemma ExchangePreservesDistinct<T>(s: seq<T>, i: int, j: int)
    requires Distinct(s) && 0 <= i < |s| && 0 <= j < |s|
    ensures Distinct(Exchange(s, i, j))
  {
    var r := Exchange(s, i, j);
    forall a, b | 0 <= a < b < |r|
      ensures r[a] != r[b]
    {
      var a' := if a == i then j else if a == j then i else a;
      var b' := if b == i then j else if b == j then i else b;
      assert r[a] == s[a'] && r[b] == s[b'];
    }
  }

  /** Distinctness is the same as every value occurring at most once. */
  lemma {:induction false} DistinctIffSingleOccurrences<T>(s: seq<T>)
    ensures Distinct(s) <==> forall v :: multiset(s)[v] <= 1
  {
    if |s| > 0 {
      DistinctIffSingleOccurrences(s[1..]);
      assert s == [s[0]] + s[1..];
      assert multiset(s) == multiset{s[0]} + multiset(s[1..]);
      if Distinct(s) {
        assert s[0] !in s[1..] by {
          forall k | 0 <= k < |s[1..]| ensures s[1..][k] != s[0] {
            assert s[1..][k] == s[k + 1];
          }
        }
        assert Distinct(s[1..]) by {
          forall a, b | 0 <= a < b < |s[1..]| ensures s[1..][a] != s[1..][b] {
            assert s[1..][a] == s[a + 1] && s[1..][b] == s[b + 1];
          }
        }
      }
      if forall v :: multiset(s)[v] <= 1 {
        assert forall v :: multiset(s[1..])[v] <= multiset(s)[v];
        assert multiset(s[1..])[s[0]] == 0;
        forall a, b | 0 <= a < b < |s| ensures s[a] != s[b] {
          assert s[b] == s[1..][b - 1];
          if a > 0 {
            assert s[a] == s[1..][a - 1];
          } else {
            assert s[b] in s[1..];
          }
        }
      }
    }
  }

  /** A rearrangement of distinct values is itself distinct. */
  lemma DistinctOfSameMultiset<T>(s: seq<T>, t: seq<T>)
    requires multiset(s) == multiset(t) && Distinct(t)
    ensures Distinct(s)
  {
    DistinctIffSingleOccurrences(t);
    DistinctIffSingleOccurrences(s);
  }

  /** JavaScript's `flatMap(row => row)`: the rows joined in order. */
  function Flatten<T>(rows: seq<seq<T>>): seq<T> {
    if |rows| == 0 then [] else rows[0] + Flatten(rows[1..])
  }

  /** When every row has width `n`, the joined sequence has `|rows| * n` values. */
  lemma {:induction false} FlattenUniformLength<T>(rows: seq<seq<T>>, n: nat)
    requires forall y | 0 <= y < |rows| :: |rows[y]| == n
    ensures |Flatten(rows)| == |rows| * n
  {
    if |rows| > 0 {
      FlattenUniformLength(rows[1..], n);
      MulSucc(|rows| - 1, n);
    }
  }

  /** When every row has width `n`, column `x` of row `y` sits at `y * n + x`. */
  lemma {:induction false} FlattenUniformAt<T>(rows: seq<seq<T>>, n: nat, y: nat, x: nat)
    requires forall y | 0 <= y < |rows| :: |rows[y]| == n
    requires y < |rows| && x < n
    ensures y * n + x < |Flatten(rows)|
    ensures Flatten(rows)[y * n + x] == rows[y][x]
  {
    FlattenUniformLength(rows, n);
    if y == 0 {
      assert Flatten(rows) == rows[0] + Flatten(rows[1..]);
    } else {
      var tail := rows[1..];
      FlattenUniformAt(tail, n, y - 1, x);
      MulSucc(y - 1, n);
      assert Flatten(rows) == rows[0] + Flatten(tail);
      assert tail[y - 1] == rows[y];
    }
  }

  lemma MulSucc(a: nat, n: nat)
    ensures (a + 1) * n == n + a * n
  {
  }
}
