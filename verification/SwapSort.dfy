/** How many swaps of neighbours sort a sequence: the program moves each value of the
    sorted copy to its place in turn and adds up how far it had to move. */
module SwapSort {
  import opened CLibrary

  ghost predicate Sorted(s: seq<int>) {
    forall i, j | 0 <= i < j < |s| :: s[i] <= s[j]
  }

  /** How many entries of `s` are smaller than `x`. */
  function Below(s: seq<int>, x: int): nat {
    if s == [] then 0 else (if s[0] < x then 1 else 0) + Below(s[1..], x)
  }

  /** How many pairs stand in the wrong order. */
  function Inversions(s: seq<int>): nat {
    if s == [] then 0 else Below(s[1..], s[0]) + Inversions(s[1..])
  }

  function Swap(s: seq<int>, k: nat): (r: seq<int>)
    requires k + 1 < |s|
    ensures |r| == |s|
  {
    s[k := s[k + 1]][k + 1 := s[k]]
  }

  predicate Swaps(ks: seq<nat>, n: nat) {
    forall i | 0 <= i < |ks| :: ks[i] + 1 < n
  }

  /** The sequence after swapping neighbours at the given places, one after the other. */
  function Apply(s: seq<int>, ks: seq<nat>): (r: seq<int>)
    requires Swaps(ks, |s|)
    ensures |r| == |s|
    decreases ks
  {
    if ks == [] then s else Apply(Swap(s, ks[0]), ks[1..])
  }

  ghost predicate SortsIn(s: seq<int>, ks: seq<nat>) {
    Swaps(ks, |s|) && Sorted(Apply(s, ks))
  }

  ghost predicate IsFewestSwaps(s: seq<int>, count: int) {
    && (exists ks :: SortsIn(s, ks) && |ks| == count)
    && (forall ks | SortsIn(s, ks) :: count <= |ks|)
  }

  // ------------------------------------------------------------------ inversions

  lemma {:induction false} BelowAfterSwap(s: seq<int>, k: nat, x: int)
    requires k + 1 < |s|
    ensures Below(Swap(s, k), x) == Below(s, x)
  {
    var t := Swap(s, k);
    if k == 0 {
      assert t[1..][1..] == s[1..][1..];
    } else {
      BelowAfterSwap(s[1..], k - 1, x);
      assert t[1..] == Swap(s[1..], k - 1);
    }
  }

  function Change(a: int, b: int): int {
    if a > b then -1 else if a < b then 1 else 0
  }

  /** A swap of neighbours mends one inversion, makes one, or swaps equals. */
  lemma {:induction false} SwapChangesByOne(s: seq<int>, k: nat)
    requires k + 1 < |s|
    ensures Inversions(Swap(s, k)) == Inversions(s) + Change(s[k], s[k + 1])
  {
    var t := Swap(s, k);
    if k == 0 {
      assert t[1..][1..] == s[1..][1..];
    } else {
      SwapChangesByOne(s[1..], k - 1);
      assert t[1..] == Swap(s[1..], k - 1);
      BelowAfterSwap(s[1..], k - 1, s[0]);
    }
  }

  lemma {:induction false} NoneBelow(s: seq<int>, x: int)
    requires forall i | 0 <= i < |s| :: x <= s[i]
    ensures Below(s, x) == 0
  {
    if s != [] {
      NoneBelow(s[1..], x);
    }
  }

  lemma {:induction false} SomeBelow(s: seq<int>, x: int, i: nat)
    requires i < |s| && s[i] < x
    ensures Below(s, x) > 0
  {
    if i > 0 {
      SomeBelow(s[1..], x, i - 1);
    }
  }

  lemma {:induction false} SortedMeansNoInversions(s: seq<int>)
    ensures Sorted(s) <==> Inversions(s) == 0
  {
    if s != [] {
      var t := s[1..];
      SortedMeansNoInversions(t);
      if Sorted(s) {
        NoneBelow(t, s[0]);
      } else if Sorted(t) {
        var j :| 0 <= j < |t| && t[j] < s[0];
        SomeBelow(t, s[0], j);
      }
    }
  }

  /** No series of swaps can sort with fewer than one swap an inversion. */
  lemma {:induction false} SortingTakesInversions(s: seq<int>, ks: seq<nat>)
    requires SortsIn(s, ks)
    ensures Inversions(s) <= |ks|
    decreases ks
  {
    if ks == [] {
      SortedMeansNoInversions(s);
    } else {
      SwapChangesByOne(s, ks[0]);
      SortingTakesInversions(Swap(s, ks[0]), ks[1..]);
    }
  }

  lemma ApplyCons(s: seq<int>, k: nat, ks: seq<nat>)
    requires k + 1 < |s| && Swaps(ks, |s|)
    ensures Swaps([k] + ks, |s|)
    ensures Apply(s, [k] + ks) == Apply(Swap(s, k), ks)
  {
    assert ([k] + ks)[1..] == ks;
  }

  lemma {:induction false} ApplyConcat(s: seq<int>, js: seq<nat>, ks: seq<nat>)
    requires Swaps(js, |s|) && Swaps(ks, |s|)
    ensures Swaps(js + ks, |s|)
    ensures Apply(s, js + ks) == Apply(Apply(s, js), ks)
    decreases js
  {
    if js == [] {
      assert js + ks == ks;
    } else {
      ApplyConcat(Swap(s, js[0]), js[1..], ks);
      assert (js + ks)[1..] == js[1..] + ks;
    }
  }

  // -------------------------------------------------------------------- rotating

  /** The entry at `src` moved forward to `dest`. */
  function Rotated(s: seq<int>, dest: nat, src: nat): (r: seq<int>)
    requires dest <= src < |s|
    ensures |r| == |s|
  {
    s[..dest] + [s[src]] + s[dest..src] + s[src + 1..]
  }

  function Steps(dest: nat, src: nat): (ks: seq<nat>)
    requires dest <= src
    ensures |ks| == src - dest
    decreases src - dest
  {
    if src == dest then [] else [src - 1] + Steps(dest, src - 1)
  }

  lemma RotateOnce(s: seq<int>, dest: nat, src: nat)
    requires dest < src < |s|
    ensures Rotated(s, dest, src) == Rotated(Swap(s, src - 1), dest, src - 1)
  {
  }

  lemma RotateNowhere(s: seq<int>, dest: nat)
    requires dest < |s|
    ensures Rotated(s, dest, dest) == s
  {
  }

  /** Rotating is swapping neighbours all the way down, */
  lemma {:induction false} RotatingSwaps(s: seq<int>, dest: nat, src: nat)
    requires dest <= src < |s|
    ensures Swaps(Steps(dest, src), |s|)
    ensures Apply(s, Steps(dest, src)) == Rotated(s, dest, src)
    decreases src - dest
  {
    if src == dest {
      RotateNowhere(s, dest);
    } else {
      hide Rotated, Apply, Swap, Swaps;
      RotatingSwaps(Swap(s, src - 1), dest, src - 1);
      RotateOnce(s, dest, src);
      ApplyCons(s, src - 1, Steps(dest, src - 1));
    }
  }

  /** and when the entry is smaller than all it passes, every one of those swaps
      mends an inversion. */
  lemma {:induction false} RotatingMends(s: seq<int>, dest: nat, src: nat)
    requires dest <= src < |s|
    requires forall j | dest <= j < src :: s[src] < s[j]
    ensures Inversions(s) == Inversions(Rotated(s, dest, src)) + (src - dest)
    decreases src - dest
  {
    hide Rotated, Inversions;
    if src == dest {
      RotateNowhere(s, dest);
    } else {
      SwapChangesByOne(s, src - 1);
      RotatingMends(Swap(s, src - 1), dest, src - 1);
      RotateOnce(s, dest, src);
    }
  }

  lemma RotatedPermutes(s: seq<int>, dest: nat, src: nat)
    requires dest <= src < |s|
    ensures multiset(Rotated(s, dest, src)) == multiset(s)
  {
    assert s == s[..dest] + (s[dest..src] + ([s[src]] + s[src + 1..]));
  }

  lemma RotatedAt(s: seq<int>, dest: nat, src: nat, r: seq<int>)
    requires dest <= src < |s| && |r| == |s| && r[dest] == s[src]
    requires forall j | dest < j <= src :: r[j] == s[j - 1]
    requires forall j | 0 <= j < |s| && !(dest <= j <= src) :: r[j] == s[j]
    ensures r == Rotated(s, dest, src)
  {
  }

  method QSwap(arry: array<int>, dest: int, src: int) returns (moved: int)
    requires 0 <= dest && src < arry.Length
    modifies arry
    ensures dest <= src ==> arry[..] == Rotated(old(arry[..]), dest, src) && moved == src - dest
    ensures dest > src ==> arry[..] == old(arry[..]) && moved == 0
  {
    if dest >= src {
      assert dest == src ==> Rotated(arry[..], dest, src) == arry[..];
      return 0;
    }
    var save := arry[src];
    var i := src;
    while i > dest
      invariant dest <= i <= src
      invariant forall j | 0 <= j < arry.Length ::
                  arry[j] == if i < j <= src then old(arry[j - 1]) else old(arry[j])
    {
      arry[i] := arry[i - 1];
      i := i - 1;
    }
    arry[dest] := save;
    hide Rotated;
    RotatedAt(old(arry[..]), dest, src, arry[..]);
    return src - dest;
  }

  // ------------------------------------------------------------------ the program

  /** With the first `i` values in place, the next value of the sorted copy is among
      the rest of the array, and is the least of them. */
  lemma NextIsLeast(s: seq<int>, q: seq<int>, i: nat)
    requires Sorted(q) && multiset(s) == multiset(q) && i < |q| && |s| == |q| && s[..i] == q[..i]
    ensures q[i] in s[i..]
    ensures forall j | i <= j < |s| :: q[i] <= s[j]
  {
    RestPermutes(s, q, i);
    assert q[i..][0] in multiset(q[i..]);
    forall j | i <= j < |s| ensures q[i] <= s[j] {
      assert s[i..][j - i] in multiset(s[i..]);
      assert s[j] in q[i..];
    }
  }

  lemma RestPermutes(s: seq<int>, q: seq<int>, i: nat)
    requires multiset(s) == multiset(q) && i < |q| && |s| == |q| && s[..i] == q[..i]
    ensures multiset(s[i..]) == multiset(q[i..])
  {
    assert s == s[..i] + s[i..] && q == q[..i] + q[i..];
    assert multiset(s[i..]) == multiset(s) - multiset(s[..i]);
    assert multiset(q[i..]) == multiset(q) - multiset(q[..i]);
  }

  /** One round of the outer loop keeps the accounts. */
  lemma Round(first: seq<int>, s: seq<int>, q: seq<int>, ks: seq<nat>, i: nat, src: nat)
    requires Sorted(q) && multiset(s) == multiset(q) && |s| == |q| && i < |q| && s[..i] == q[..i]
    requires i <= src < |s| && s[src] == q[i] && forall j | i <= j < src :: s[j] != q[i]
    requires |first| == |s| && Swaps(ks, |s|) && Apply(first, ks) == s
    ensures Inversions(s) == Inversions(Rotated(s, i, src)) + (src - i)
    ensures Swaps(ks + Steps(i, src), |s|) && Apply(first, ks + Steps(i, src)) == Rotated(s, i, src)
    ensures Rotated(s, i, src)[..i + 1] == q[..i + 1]
    ensures multiset(Rotated(s, i, src)) == multiset(q)
  {
    hide Inversions, Apply, Swaps, Steps;
    NextIsLeast(s, q, i);
    RotatingSwaps(s, i, src);
    RotatingMends(s, i, src);
    RotatedPermutes(s, i, src);
    ApplyConcat(first, ks, Steps(i, src));
    assert Rotated(s, i, src)[..i + 1] == s[..i] + [q[i]];
  }

  method LogSwapTime(arry: array<int>, qarry: array<int>, len: int) returns (count: int)
    requires arry != qarry && len == arry.Length == qarry.Length
    requires Sorted(qarry[..]) && multiset(qarry[..]) == multiset(arry[..])
    modifies arry
    ensures arry[..] == qarry[..]
    ensures count == Inversions(old(arry[..]))
    ensures IsFewestSwaps(old(arry[..]), count)
  {
    hide Inversions, Apply, Rotated, Swaps, Steps;
    ghost var first, q := arry[..], qarry[..];
    ghost var ks: seq<nat> := [];
    StartRound(first);
    count := 0;
    var i := 0;
    while i < len
      invariant 0 <= i <= len
      invariant qarry[..] == q && |q| == |first| == len
      invariant arry[..i] == q[..i] && multiset(arry[..]) == multiset(q)
      invariant Inversions(arry[..]) + count == Inversions(first)
      invariant |ks| == count && Swaps(ks, len) && Apply(first, ks) == arry[..]
    {
      ghost var s := arry[..];
      assert s[..i] == arry[..i];
      NextIsLeast(s, q, i);
      var srcE := qarry[i];
      var src := i;
      while arry[src] != srcE && src < len
        invariant i <= src < len && srcE in s[src..]
        invariant forall j | i <= j < src :: s[j] != srcE
        decreases len - src
      {
        assert s[src..] == [s[src]] + s[src + 1..];
        src := src + 1;
      }
      Round(first, s, q, ks, i, src);
      var moved := QSwap(arry, i, src);
      count := count + moved;
      ks := ks + Steps(i, src);
      assert |Steps(i, src)| == src - i;
      assert arry[..][..i + 1] == arry[..i + 1];
      i := i + 1;
    }
    assert arry[..len] == arry[..] && q[..len] == q;
    Finish(first, q, ks);
  }

  lemma StartRound(s: seq<int>)
    ensures Swaps([], |s|) && Apply(s, []) == s
  {
  }

  lemma Finish(first: seq<int>, q: seq<int>, ks: seq<nat>)
    requires Swaps(ks, |first|) && Apply(first, ks) == q && Sorted(q)
    requires Inversions(q) + |ks| == Inversions(first)
    ensures |ks| == Inversions(first) && IsFewestSwaps(first, |ks|)
  {
    SortedMeansNoInversions(q);
    assert SortsIn(first, ks);
    forall js | SortsIn(first, js) ensures |ks| <= |js| {
      SortingTakesInversions(first, js);
    }
  }

  /** `compare`: the difference, as far as an int holds it. */
  function Compare(x: int, y: int): int {
    Int32(x - y)
  }

  /** It tells which of two ints is greater exactly if their difference is an int. */
  lemma CompareOrders(x: int, y: int)
    requires -0x8000_0000 <= x < 0x8000_0000 && -0x8000_0000 <= y < 0x8000_0000
    ensures (Compare(x, y) < 0 <==> x < y) && (Compare(x, y) == 0 <==> x == y) <==> -0x8000_0000 <= x - y < 0x8000_0000
    ensures Compare(0x7FFF_FFFF, -1) < 0
  {
    if x - y >= 0x8000_0000 {
      assert Compare(x, y) == x - y - 0x1_0000_0000;
    } else if x - y < -0x8000_0000 {
      assert Compare(x, y) == x - y + 0x1_0000_0000;
    }
  }

  /** Entries that `compare` puts in their order. */
  ghost predicate Comparable(s: seq<int>) {
    forall x, y | x in s && y in s :: Compare(x, y) == x - y
  }

  /** One scenario of `main`. */
  method Scenario(input: seq<int>) returns (out: int)
    requires Comparable(input)
    ensures out == Inversions(input)
    ensures IsFewestSwaps(input, out)
  {
    var arry := new int[|input|](i requires 0 <= i < |input| => input[i]);
    var qarry := new int[|input|](i requires 0 <= i < |input| => input[i]);
    assert arry[..] == input && qarry[..] == input;
    assert qarry[..|input|] == input;
    Qsort(x => x, qarry, |input|);
    assert qarry[..] == qarry[..|input|] && arry[..] == input;
    out := LogSwapTime(arry, qarry, |input|);
  }

  /** The count stays within the pairs there are. */
  lemma {:induction false} InversionsBound(s: seq<int>)
    ensures 2 * Inversions(s) <= |s| * (|s| - 1)
  {
    if s != [] {
      InversionsBound(s[1..]);
      BelowBound(s[1..], s[0]);
      var n := |s| - 1;
      assert (n + 1) * n == n * (n - 1) + 2 * n;
    }
  }

  lemma {:induction false} BelowBound(s: seq<int>, x: int)
    ensures Below(s, x) <= |s|
  {
    if s != [] {
      BelowBound(s[1..], x);
    }
  }
}
