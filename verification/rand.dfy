/** The two uses of `math/rand` in the assignment engine, with the random
    source replaced by an explicit oracle: `draw(i)` is the number the
    source yields when the shuffle is at position `i`. Every choice the real
    generator can make is some oracle, so a property proved for all oracles
    holds for every run. */
module Rand {
  import opened Seqs

  /** Exchange two positions. */
  function Swap<T>(s: seq<T>, i: nat, j: nat): (r: seq<T>)
    requires i < |s| && j < |s|
    ensures |r| == |s| && r[i] == s[j] && r[j] == s[i]
    ensures forall k | 0 <= k < |s| && k != i && k != j :: r[k] == s[k]
    ensures multiset(r) == multiset(s)
    ensures Distinct(s) ==> Distinct(r)
  {
    s[i := s[j]][j := s[i]]
  }

  /** `rand.Intn(n)`: some index below `n`. */
  function Intn(n: nat, draw: nat): (k: nat)
    requires n > 0
    ensures k < n
  {
    draw % n
  }

  /** The Fisher-Yates passes of `rand.Shuffle` for positions `i` down to 1:
      position `i` is exchanged with `Intn(i + 1)`. */
  function ShuffleDown<T>(s: seq<T>, i: nat, draw: nat -> nat): (r: seq<T>)
    requires i < |s|
    ensures |r| == |s|
    ensures multiset(r) == multiset(s)
    ensures Distinct(s) ==> Distinct(r)
    decreases i
  {
    if i == 0 then s
    else ShuffleDown(Swap(s, i, Intn(i + 1, draw(i))), i - 1, draw)
  }

  /** `rand.Shuffle(len(s), swap)` on a copy of `s`: some permutation of it. */
  function Shuffle<T>(s: seq<T>, draw: nat -> nat): (r: seq<T>)
    ensures |r| == |s|
    ensures multiset(r) == multiset(s)
    ensures forall x | x in r :: x in s
    ensures Distinct(s) ==> Distinct(r)
  {
    if |s| <= 1 then s
    else
      var r := ShuffleDown(s, |s| - 1, draw);
      assert forall x | x in r :: x in multiset(r);
      r
  }

  lemma ShuffleDownStep<T>(s: seq<T>, i: nat, draw: nat -> nat)
    requires 0 < i < |s|
    ensures ShuffleDown(s, i, draw) == ShuffleDown(Swap(s, i, Intn(i + 1, draw(i))), i - 1, draw)
  {
  }

  /** Steps whose draw names their own position leave the sequence alone:
      the passes from `i` down to `j + 1` can be skipped. */
  lemma {:induction false} SkipStayingSteps<T>(s: seq<T>, i: nat, j: nat, draw: nat -> nat)
    requires j <= i < |s|
    requires forall m | j < m <= i :: draw(m) == m
    ensures ShuffleDown(s, i, draw) == ShuffleDown(s, j, draw)
    decreases i
  {
    if i > j {
      var k := Intn(i + 1, draw(i));
      assert draw(i) == i;
      assert k == i;
      assert Swap(s, i, k) == s;
      ShuffleDownStep(s, i, draw);
      SkipStayingSteps(s, i - 1, j, draw);
      assert ShuffleDown(s, i, draw) == ShuffleDown(Swap(s, i, k), i - 1, draw);
      assert ShuffleDown(s, i, draw) == ShuffleDown(s, i - 1, draw);
      assert ShuffleDown(s, i - 1, draw) == ShuffleDown(s, j, draw);
    }
  }

  /** A draw that picks 0 at position `k` and stays put everywhere else
      brings `s[k]` to the front. */
  lemma BringToFront<T>(s: seq<T>, k: nat, draw: nat -> nat)
    requires k < |s| && 1 < |s|
    requires draw(k) == 0
    requires forall m | 0 < m < |s| && m != k :: draw(m) == m
    ensures Shuffle(s, draw)[0] == s[k]
  {
    SkipStayingSteps(s, |s| - 1, k, draw);
    if k > 0 {
      var moved := Swap(s, k, Intn(k + 1, draw(k)));
      assert moved[0] == s[k];
      ShuffleDownStep(s, k, draw);
      SkipStayingSteps(moved, k - 1, 0, draw);
    }
  }

  /** Every element can come out first: the shuffle is not biased against
      any position. */
  lemma AnyElementCanComeFirst<T>(s: seq<T>, k: nat)
    requires k < |s|
    ensures exists draw: nat -> nat :: Shuffle(s, draw)[0] == s[k]
  {
    var draw := (m: nat) => if m == k then 0 else m;
    if |s| > 1 {
      BringToFront(s, k, draw);
    } else {
      assert Shuffle(s, draw)[0] == s[k];
    }
  }
}
