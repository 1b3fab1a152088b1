/** Totals of multisets of integers, for the programs that share out lengths. */
module Multisets {

  /** Some element of `m`, always the same one. */
  ghost function Pick<T>(m: multiset<T>): (x: T)
    requires m != multiset{}
    ensures x in m
  {
    assert |m| > 0;
    var x :| x in m;
    x
  }

  /** `m` with one `x` taken out. */
  ghost function Without<T>(m: multiset<T>, x: T): (r: multiset<T>)
    requires x in m
    ensures r + multiset{x} == m
    ensures |r| == |m| - 1
  {
    var r := m - multiset{x};
    assert r + multiset{x} == m;
    r
  }

  /** The total of a multiset of integers. */
  ghost function Sum(m: multiset<int>): int
    decreases |m|
  {
    if m == multiset{} then 0 else
      var x := Pick(m);
      x + Sum(m - multiset{x})
  }

  lemma {:induction false} SumAdd(m: multiset<int>, x: int)
    ensures Sum(m + multiset{x}) == Sum(m) + x
    decreases |m|
  {
    var m' := m + multiset{x};
    assert x in m';
    var y := Pick(m');
    if y == x {
      assert m' - multiset{x} == m;
    } else {
      var r := m - multiset{y};
      assert m' - multiset{y} == r + multiset{x};
      assert r + multiset{y} == m;
      SumAdd(r, x);
      SumAdd(r, y);
    }
  }

  lemma EmptySum()
    ensures Sum(multiset{}) == 0
  {
  }

  lemma SumTake(m: multiset<int>, x: int)
    requires x in m
    ensures Sum(m) == Sum(m - multiset{x}) + x
  {
    SumAdd(m - multiset{x}, x);
    assert m - multiset{x} + multiset{x} == m;
  }

  lemma {:induction false} SumUnion(a: multiset<int>, b: multiset<int>)
    ensures Sum(a + b) == Sum(a) + Sum(b)
    decreases |b|
  {
    if b == multiset{} {
      assert a + b == a;
    } else {
      var x := Pick(b);
      var c := b - multiset{x};
      SumUnion(a, c);
      SumTake(b, x);
      SumTake(a + b, x);
      assert a + b - multiset{x} == a + c;
    }
  }

  ghost predicate Positive(m: multiset<int>) {
    forall x | x in m :: x > 0
  }

  lemma {:induction false} SumPositive(m: multiset<int>)
    requires Positive(m)
    ensures Sum(m) >= 0
    ensures m != multiset{} ==> Sum(m) > 0
    ensures forall x | x in m :: x <= Sum(m)
    decreases |m|
  {
    if m != multiset{} {
      forall x | x in m ensures x <= Sum(m) && Sum(m) > 0 {
        SumTake(m, x);
        SumPositive(m - multiset{x});
      }
      var y := Pick(m);
    }
  }

  lemma SubsetOfSum<T>(a: multiset<T>, b: multiset<T>, c: multiset<T>)
    requires a <= b
    ensures a <= b + c
  {
  }

  lemma SwapSum<T>(a: multiset<T>, b: multiset<T>, c: multiset<T>)
    ensures a + b + c == a + c + b
  {
  }

  lemma Cancel<T>(a: multiset<T>, b: multiset<T>, c: multiset<T>)
    requires a + c == b + c
    ensures a == b
  {
    assert a + c - c == a && b + c - c == b;
  }

  lemma OneOut<T>(s: seq<T>, k: nat)
    requires k < |s|
    ensures multiset(s) == multiset(s[..k] + s[k + 1..]) + multiset{s[k]}
  {
    assert s == s[..k] + [s[k]] + s[k + 1..];
  }
}
