/** The "sticks" search: the least length L for which a pile of sticks can be
    split into groups that each add up to exactly L, found by a pruned
    backtracking search over a shared array of "taken" marks. */
module Sticks {
  import opened Basics
  import opened CLibrary
  import opened Multisets

  const MAXN := 65

  // ---------------------------------------------------------------- splitting

  /** `g` is a group of total length `length` taken from `m`. */
  ghost predicate IsGroup(g: multiset<int>, m: multiset<int>, length: int) {
    g <= m && Sum(g) == length
  }

  ghost function Pool(groups: seq<multiset<int>>): multiset<int> {
    if groups == [] then multiset{} else groups[0] + Pool(groups[1..])
  }

  ghost predicate IsSplit(groups: seq<multiset<int>>, m: multiset<int>, length: int) {
    Pool(groups) == m && forall i | 0 <= i < |groups| :: Sum(groups[i]) == length
  }

  /** `m` can be laid out in groups of total length `length` each. */
  ghost predicate Splits(m: multiset<int>, length: int) {
    exists groups :: IsSplit(groups, m, length)
  }

  lemma SplitNothing(length: int)
    ensures Splits(multiset{}, length)
  {
    assert IsSplit([], multiset{}, length);
  }

  lemma SplitWithGroup(m: multiset<int>, g: multiset<int>, length: int)
    requires IsGroup(g, m, length) && Splits(m - g, length)
    ensures Splits(m, length)
  {
    var rest :| IsSplit(rest, m - g, length);
    var groups := [g] + rest;
    assert groups[1..] == rest;
    assert Pool(groups) == m by {
      assert g + (m - g) == m;
    }
    assert IsSplit(groups, m, length);
  }

  lemma {:induction false} PullGroup(groups: seq<multiset<int>>, x: int)
      returns (i: nat, rest: seq<multiset<int>>)
    requires x in Pool(groups)
    ensures i < |groups| && x in groups[i]
    ensures Pool(rest) + groups[i] == Pool(groups)
    ensures |rest| == |groups| - 1
    ensures forall j | 0 <= j < |rest| :: rest[j] in groups
  {
    if x in groups[0] {
      i, rest := 0, groups[1..];
    } else {
      var k, others := PullGroup(groups[1..], x);
      i, rest := k + 1, [groups[0]] + others;
      assert rest[1..] == others;
    }
  }

  /** In a split, any stick can be the one whose group is taken out first. */
  lemma GroupOf(m: multiset<int>, length: int, x: int) returns (g: multiset<int>)
    requires Splits(m, length) && x in m
    ensures IsGroup(g, m, length) && x in g && Splits(m - g, length)
  {
    var groups :| IsSplit(groups, m, length);
    var i, rest := PullGroup(groups, x);
    g := groups[i];
    assert m - g == Pool(rest);
    assert IsSplit(rest, m - g, length);
  }

  ghost predicate IsMultiple(x: int, d: int) {
    exists k: nat :: Times(k, d) == x
  }

  lemma {:induction false} TimesIsProduct(k: nat, d: int)
    ensures Times(k, d) == k * d
  {
    if k > 0 {
      TimesIsProduct(k - 1, d);
      assert k * d == (k - 1) * d + d;
    }
  }

  predicate Divides(d: int, x: int)
    requires d != 0
  {
    x % d == 0
  }

  lemma DividesMultiple(d: int, x: int)
    requires x >= 0 && d > 0
    ensures Divides(d, x) <==> IsMultiple(x, d)
  {
    if x % d == 0 {
      assert x == (x / d) * d;
      assert x / d >= 0;
      TimesIsProduct(x / d, d);
    }
    if IsMultiple(x, d) {
      var k: nat :| Times(k, d) == x;
      TimesIsProduct(k, d);
      ProductModulo(k, d);
    }
  }

  lemma ProductModulo(k: int, d: int)
    requires d > 0
    ensures (k * d) % d == 0
  {
    var q, r := (k * d) / d, (k * d) % d;
    assert (k - q) * d == r;
    assert k - q >= 1 ==> (k - q) * d >= d;
    assert k - q <= -1 ==> (k - q) * d <= -d;
  }

  lemma {:induction false} TimesBounds(k: nat, d: int)
    requires d > 0
    ensures Times(k, d) >= 0
    ensures k >= 1 ==> Times(k, d) >= d
    ensures k >= 2 ==> Times(k, d) >= d + d
  {
    if k > 0 {
      TimesBounds(k - 1, d);
    }
  }

  lemma SmallMultiple(x: int, d: int)
    requires 0 <= x < d && IsMultiple(x, d)
    ensures x == 0
  {
    var k: nat :| Times(k, d) == x;
    TimesBounds(k, d);
  }

  lemma OneGroupLess(x: int, d: int)
    requires x >= d > 0 && IsMultiple(x, d)
    ensures IsMultiple(x - d, d)
  {
    var k: nat :| Times(k, d) == x;
    assert k > 0 && Times(k - 1, d) == x - d;
  }

  lemma {:induction false} PoolSum(groups: seq<multiset<int>>, m: multiset<int>, length: int)
    requires IsSplit(groups, m, length)
    ensures Sum(m) == Times(|groups|, length)
  {
    if groups != [] {
      PoolSum(groups[1..], Pool(groups[1..]), length);
      SumUnion(groups[0], Pool(groups[1..]));
    }
  }

  lemma SplitDivides(m: multiset<int>, length: int) returns (k: nat)
    requires Splits(m, length)
    ensures Sum(m) == Times(k, length)
  {
    var groups :| IsSplit(groups, m, length);
    PoolSum(groups, m, length);
    k := |groups|;
  }

  ghost predicate IsLeastLength(m: multiset<int>, length: int) {
    && length >= 1
    && Splits(m, length)
    && forall k | 1 <= k < length :: !Splits(m, k)
  }

  /** Below the longest stick no length works. */
  lemma TooShort(m: multiset<int>, x: int)
    requires Positive(m) && x in m
    ensures forall length | 1 <= length < x :: !Splits(m, length)
  {
    forall length | 1 <= length < x && Splits(m, length)
      ensures false
    {
      var g := GroupOf(m, length, x);
      SumPositive(g);
    }
  }

  /** Between half of the total and the total no length divides it. */
  lemma PastHalf(m: multiset<int>, from: int)
    requires Positive(m) && m != multiset{}
    requires Sum(m) - from < from
    ensures Sum(m) > 0
    ensures forall length | from <= length < Sum(m) :: !Splits(m, length)
  {
    SumPositive(m);
    forall length | from <= length < Sum(m) && Splits(m, length)
      ensures false
    {
      var k := SplitDivides(m, length);
      TimesBounds(k, length);
    }
  }

  // ------------------------------------------------- completing a started group

  /** `g`, drawn from `avail`, brings a group of length `len` up to `target`, and
      what is then left of `all` splits. */
  ghost predicate Completing(g: multiset<int>, all: multiset<int>, avail: multiset<int>,
                             len: int, target: int)
  {
    g <= avail && len + Sum(g) == target && Splits(all - g, target)
  }

  /** The sticks at index `i` and beyond that are not taken. */
  ghost function Unused(stick: seq<int>, vis: seq<bool>, i: nat): multiset<int>
    requires |stick| == |vis|
    decreases |stick| - i
  {
    if i >= |stick| then multiset{}
    else Unused(stick, vis, i + 1) + if vis[i] then multiset{} else multiset{stick[i]}
  }

  /** What `dfs` decides. */
  ghost predicate Feasible(stick: seq<int>, vis: seq<bool>, len: int, target: int, start: nat)
    requires |stick| == |vis|
  {
    if len == 0 then Splits(Unused(stick, vis, 0), target)
    else exists g :: Completing(g, Unused(stick, vis, 0), Unused(stick, vis, start), len, target)
  }

  lemma {:induction false} UnusedMark(stick: seq<int>, vis: seq<bool>, i: nat, k: nat)
    requires |stick| == |vis| && i < |stick| && !vis[i]
    ensures Unused(stick, vis, k) ==
            Unused(stick, vis[i := true], k) + if k <= i then multiset{stick[i]} else multiset{}
    decreases |stick| - k
  {
    if k < |stick| {
      UnusedMark(stick, vis, i, k + 1);
      var here := if vis[k] then multiset{} else multiset{stick[k]};
      SwapSum(Unused(stick, vis[i := true], k + 1), if k + 1 <= i then multiset{stick[i]} else multiset{}, here);
    }
  }

  lemma {:induction false} UnusedShrinks(stick: seq<int>, vis: seq<bool>, i: nat, k: nat)
    requires |stick| == |vis| && i <= k
    ensures Unused(stick, vis, k) <= Unused(stick, vis, i)
    decreases |stick| - i
  {
    if i < |stick| && i < k {
      UnusedShrinks(stick, vis, i + 1, k);
      SubsetOfSum(Unused(stick, vis, k), Unused(stick, vis, i + 1), if vis[i] then multiset{} else multiset{stick[i]});
    }
  }

  lemma {:induction false} UnusedAfterTaken(stick: seq<int>, vis: seq<bool>, i: nat, k: nat)
    requires |stick| == |vis| && i <= k <= |stick|
    requires forall j | i <= j < k :: vis[j]
    ensures Unused(stick, vis, k) == Unused(stick, vis, i)
    decreases k - i
  {
    if i < k {
      UnusedAfterTaken(stick, vis, i + 1, k);
    }
  }

  lemma {:induction false} UnusedPositive(stick: seq<int>, vis: seq<bool>, i: nat)
    requires |stick| == |vis|
    requires forall j | 0 <= j < |stick| :: stick[j] > 0
    ensures Positive(Unused(stick, vis, i))
    decreases |stick| - i
  {
    if i < |stick| {
      UnusedPositive(stick, vis, i + 1);
    }
  }

  lemma {:induction false} NoneUnused(stick: seq<int>, vis: seq<bool>, i: nat)
    requires |stick| == |vis|
    ensures Unused(stick, vis, i) == multiset{} <==> forall j | i <= j < |vis| :: vis[j]
    decreases |stick| - i
  {
    if i < |stick| {
      NoneUnused(stick, vis, i + 1);
      assert !vis[i] ==> stick[i] in Unused(stick, vis, i);
    }
  }

  lemma {:induction false} AllUnused(stick: seq<int>, vis: seq<bool>, i: nat)
    requires |stick| == |vis| && i <= |stick|
    requires forall j | 0 <= j < |vis| :: !vis[j]
    ensures Unused(stick, vis, i) == multiset(stick[i..])
    decreases |stick| - i
  {
    if i < |stick| {
      AllUnused(stick, vis, i + 1);
      assert stick[i..] == [stick[i]] + stick[i + 1..];
    }
  }

  /** Taking stick `x` into the current group: a completion that uses `x` is
      exactly a completion of the longer group from what comes after. */
  lemma TakeStick(g: multiset<int>, all: multiset<int>, avail: multiset<int>, later: multiset<int>,
                  x: int, len: int, target: int)
    requires avail == later + multiset{x} && x in all
    ensures x in g && Completing(g, all, avail, len, target) ==>
              Completing(g - multiset{x}, all - multiset{x}, later, len + x, target)
    ensures Completing(g, all - multiset{x}, later, len + x, target) ==>
              Completing(g + multiset{x}, all, avail, len, target)
  {
    if x in g {
      SumTake(g, x);
      assert all - multiset{x} - (g - multiset{x}) == all - g;
    }
    SumAdd(g, x);
    assert all - multiset{x} - g == all - (g + multiset{x});
  }

  /** A completion that uses stick `x` when `x` does not leave the group short. */
  lemma LastStick(g: multiset<int>, all: multiset<int>, avail: multiset<int>, x: int, len: int, target: int)
    requires Completing(g, all, avail, len, target) && x in g && Positive(avail)
    requires len + x >= target
    ensures len + x == target && g == multiset{x} && Splits(all - multiset{x}, target)
  {
    SumTake(g, x);
    SumPositive(g - multiset{x});
    assert g == g - multiset{x} + multiset{x};
  }

  /** Some completion drawn from `avail` has the stick `x` in the current group. */
  ghost predicate Uses(all: multiset<int>, avail: multiset<int>, x: int, len: int, target: int) {
    exists g :: Completing(g, all, avail, len, target) && x in g
  }

  /** The marks after stick `i` is taken. */
  lemma Taking(stick: seq<int>, vis: seq<bool>, i: nat)
    requires |stick| == |vis| && i < |stick| && !vis[i]
    ensures stick[i] in Unused(stick, vis, 0)
    ensures Unused(stick, vis[i := true], 0) == Unused(stick, vis, 0) - multiset{stick[i]}
    ensures Unused(stick, vis, i) == Unused(stick, vis, i + 1) + multiset{stick[i]}
    ensures Unused(stick, vis[i := true], i + 1) == Unused(stick, vis, i + 1)
  {
    UnusedMark(stick, vis, i, 0);
    UnusedMark(stick, vis, i, i + 1);
    var after := Unused(stick, vis[i := true], 0);
    assert after + multiset{stick[i]} - multiset{stick[i]} == after;
  }

  lemma Marked(stick: seq<int>, vis: seq<bool>, i: nat)
    requires |stick| == |vis| && i < |stick| && !vis[i]
    requires forall j | 0 <= j < |stick| :: stick[j] > 0
    ensures |Unused(stick, vis[i := true], 0)| == |Unused(stick, vis, 0)| - 1
    ensures Sum(Unused(stick, vis[i := true], 0)) == Sum(Unused(stick, vis, 0)) - stick[i]
    ensures Sum(Unused(stick, vis, 0)) >= stick[i]
  {
    Taking(stick, vis, i);
    SumTake(Unused(stick, vis, 0), stick[i]);
    UnusedPositive(stick, vis, 0);
    SumPositive(Unused(stick, vis, 0));
  }

  /** Putting a stick into a group that stays short leads to the very question
      that the recursive call answers. */
  lemma ChosenShort(stick: seq<int>, vis: seq<bool>, i: nat, len: int, target: int)
    requires |stick| == |vis| && i < |stick| && !vis[i] && len + stick[i] != 0
    ensures Uses(Unused(stick, vis, 0), Unused(stick, vis, i), stick[i], len, target) <==>
            Feasible(stick, vis[i := true], len + stick[i], target, i + 1)
  {
    hide Unused, Splits, Sum;
    var x, all, from, later := stick[i], Unused(stick, vis, 0), Unused(stick, vis, i), Unused(stick, vis, i + 1);
    Taking(stick, vis, i);
    if Uses(all, from, x, len, target) {
      var g :| Completing(g, all, from, len, target) && x in g;
      TakeStick(g, all, from, later, x, len, target);
    }
    if Feasible(stick, vis[i := true], len + x, target, i + 1) {
      var g :| Completing(g, all - multiset{x}, later, len + x, target);
      TakeStick(g, all, from, later, x, len, target);
      assert x in g + multiset{x};
    }
  }

  /** A stick that fills the group exactly must be its last one. */
  lemma ChosenExact(stick: seq<int>, vis: seq<bool>, i: nat, len: int, target: int)
    requires |stick| == |vis| && i < |stick| && !vis[i] && len + stick[i] == target
    requires forall j | 0 <= j < |stick| :: stick[j] > 0
    ensures Uses(Unused(stick, vis, 0), Unused(stick, vis, i), stick[i], len, target) <==>
            Feasible(stick, vis[i := true], 0, target, 0)
  {
    hide Unused, Splits, Sum;
    var x, all, from := stick[i], Unused(stick, vis, 0), Unused(stick, vis, i);
    Taking(stick, vis, i);
    UnusedPositive(stick, vis, i);
    if Uses(all, from, x, len, target) {
      var g :| Completing(g, all, from, len, target) && x in g;
      LastStick(g, all, from, x, len, target);
    }
    if Feasible(stick, vis[i := true], 0, target, 0) {
      EmptySum();
      SumAdd(multiset{}, x);
      assert multiset{} + multiset{x} == multiset{x};
      assert Completing(multiset{x}, all, from, len, target);
    }
  }

  /** A stick too long for the group cannot be in it. */
  lemma ChosenLong(stick: seq<int>, vis: seq<bool>, i: nat, len: int, target: int)
    requires |stick| == |vis| && i < |stick| && !vis[i] && len + stick[i] > target
    requires forall j | 0 <= j < |stick| :: stick[j] > 0
    ensures !Uses(Unused(stick, vis, 0), Unused(stick, vis, i), stick[i], len, target)
  {
    UnusedPositive(stick, vis, i);
    if Uses(Unused(stick, vis, 0), Unused(stick, vis, i), stick[i], len, target) {
      var g :| Completing(g, Unused(stick, vis, 0), Unused(stick, vis, i), len, target) && stick[i] in g;
      LastStick(g, Unused(stick, vis, 0), Unused(stick, vis, i), stick[i], len, target);
    }
  }

  /** What the loop of `dfs` knows at index `i`: every completion there is can be
      made from the sticks not yet passed, and none uses the length that failed last. */
  ghost predicate Passed(stick: seq<int>, vis: seq<bool>, len: int, target: int, start: nat, i: nat, tmp: int)
    requires |stick| == |vis|
  {
    forall g | Completing(g, Unused(stick, vis, 0), Unused(stick, vis, start), len, target) ::
      g <= Unused(stick, vis, i) && tmp !in g
  }

  lemma PassNothing(stick: seq<int>, vis: seq<bool>, len: int, target: int, start: nat)
    requires |stick| == |vis|
    requires forall j | 0 <= j < |stick| :: stick[j] > 0
    ensures Passed(stick, vis, len, target, start, start, -1)
  {
    UnusedPositive(stick, vis, start);
  }

  /** Skipping a taken stick, or one as long as the last failure, loses nothing. */
  lemma PassSkipped(stick: seq<int>, vis: seq<bool>, len: int, target: int, start: nat, i: nat, tmp: int)
    requires |stick| == |vis| && i < |stick|
    requires Passed(stick, vis, len, target, start, i, tmp)
    requires vis[i] || stick[i] == tmp
    ensures Passed(stick, vis, len, target, start, i + 1, tmp)
  {
  }

  /** A stick that cannot be in the group is passed; its length may be remembered. */
  lemma PassFailed(stick: seq<int>, vis: seq<bool>, len: int, target: int, start: nat, i: nat, tmp: int, tmp': int)
    requires |stick| == |vis| && i < |stick| && !vis[i]
    requires Passed(stick, vis, len, target, start, i, tmp)
    requires !Uses(Unused(stick, vis, 0), Unused(stick, vis, i), stick[i], len, target)
    requires tmp' == tmp || tmp' == stick[i]
    ensures Passed(stick, vis, len, target, start, i + 1, tmp')
  {
    var all := Unused(stick, vis, 0);
    forall g | Completing(g, all, Unused(stick, vis, start), len, target)
      ensures g <= Unused(stick, vis, i + 1) && tmp' !in g
    {
      assert Completing(g, all, Unused(stick, vis, i), len, target);
    }
  }

  lemma PassedAll(stick: seq<int>, vis: seq<bool>, len: int, target: int, start: nat, tmp: int)
    requires |stick| == |vis|
    requires 0 < len < target
    requires Passed(stick, vis, len, target, start, |stick|, tmp)
    ensures !Feasible(stick, vis, len, target, start)
  {
    EmptySum();
    assert forall g: multiset<int> | g <= Unused(stick, vis, |stick|) :: g == multiset{};
  }

  /** A completion that uses an available stick answers the whole question. */
  lemma UsesMeansFeasible(stick: seq<int>, vis: seq<bool>, len: int, target: int, start: nat, i: nat)
    requires |stick| == |vis| && start <= i < |stick|
    requires forall j | 0 <= j < |stick| :: stick[j] > 0
    requires len == 0 ==> start == 0
    requires Uses(Unused(stick, vis, 0), Unused(stick, vis, i), stick[i], len, target)
    ensures Feasible(stick, vis, len, target, start)
  {
    var all := Unused(stick, vis, 0);
    UnusedShrinks(stick, vis, start, i);
    UnusedShrinks(stick, vis, 0, i);
    var g :| Completing(g, all, Unused(stick, vis, i), len, target) && stick[i] in g;
    assert Completing(g, all, Unused(stick, vis, start), len, target);
    if len == 0 {
      SplitWithGroup(all, g, target);
    }
  }

  /** While a group has no stick yet, the first stick left must belong to some group. */
  lemma FirstMustFit(stick: seq<int>, vis: seq<bool>, i: nat, target: int)
    requires |stick| == |vis| && i < |stick| && !vis[i]
    requires forall j | 0 <= j < |stick| :: stick[j] > 0
    requires forall j | 0 <= j < i :: vis[j]
    ensures Feasible(stick, vis, 0, target, 0) ==>
              Uses(Unused(stick, vis, 0), Unused(stick, vis, i), stick[i], 0, target)
  {
    var all := Unused(stick, vis, 0);
    UnusedAfterTaken(stick, vis, 0, i);
    if Splits(all, target) {
      var g := GroupOf(all, target, stick[i]);
      assert Completing(g, all, all, 0, target);
    }
  }

  lemma NothingLeft(stick: seq<int>, vis: seq<bool>, target: int)
    requires |stick| == |vis| && Unused(stick, vis, 0) == multiset{}
    ensures Feasible(stick, vis, 0, target, 0)
  {
    SplitNothing(target);
  }

  /** With no stick taken the search answers whether the pile splits. */
  lemma FreshStart(stick: seq<int>, vis: seq<bool>, pile: multiset<int>, target: int)
    requires |stick| == |vis| && multiset(stick) == pile
    requires forall j | 0 <= j < |vis| :: !vis[j]
    ensures Unused(stick, vis, 0) == pile && |pile| == |stick|
    ensures Feasible(stick, vis, 0, target, 0) <==> Splits(pile, target)
    ensures Splits(pile, target) && target > 0 ==> Divides(target, Sum(pile))
  {
    AllUnused(stick, vis, 0);
    assert stick[0..] == stick;
    if Splits(pile, target) && target > 0 {
      var k := SplitDivides(pile, target);
      TimesIsProduct(k, target);
      ProductModulo(k, target);
    }
  }

  lemma OneGroup(pile: multiset<int>)
    ensures Splits(pile, Sum(pile))
  {
    SplitNothing(Sum(pile));
    assert pile - pile == multiset{};
    SplitWithGroup(pile, pile, Sum(pile));
  }

  /** The running total that the reading loop keeps. */
  ghost function Total(input: seq<int>, i: nat): int
    requires i <= |input|
  {
    if i == 0 then 0 else Total(input, i - 1) + input[i - 1]
  }

  lemma {:induction false} TotalIsSum(input: seq<int>, i: nat)
    requires i <= |input|
    ensures Total(input, i) == Sum(multiset(input[..i]))
  {
    if i == 0 {
      EmptySum();
    } else {
      TotalIsSum(input, i - 1);
      assert input[..i] == input[..i - 1] + [input[i - 1]];
      SumAdd(multiset(input[..i - 1]), input[i - 1]);
    }
  }

  lemma LongestFirst(input: seq<int>, s: seq<int>)
    requires Ordered(x => -x, s) && multiset(s) == multiset(input)
    requires forall x | x in input :: x > 0
    ensures forall j | 0 <= j < |s| :: s[j] > 0
    ensures forall i, j | 0 <= i < j < |s| :: s[i] >= s[j]
  {
    forall j | 0 <= j < |s|
      ensures s[j] > 0
    {
      assert s[j] in multiset(s);
      assert s[j] in input;
    }
  }

  /** The program's globals. */
  class Search {
    var n: int
    const stick: array<int>
    const vis: array<bool>

    constructor ()
      ensures n == 0 && stick.Length == vis.Length == MAXN && fresh(stick) && fresh(vis)
    {
      n := 0;
      stick := new int[MAXN];
      vis := new bool[MAXN];
    }

    ghost predicate Valid()
      reads this, stick
    {
      && 0 <= n <= MAXN == stick.Length == vis.Length
      && forall i | 0 <= i < n :: stick[i] > 0
    }

    ghost function Left(i: nat): multiset<int>
      requires Valid()
      reads this, stick, vis
    {
      Unused(stick[..n], vis[..n], i)
    }

    method Dfs(len: int, initLen: int, start: int, num: int) returns (found: bool)
      requires Valid()
      requires 0 <= len < initLen && 0 <= start <= n
      requires len == 0 ==> start == 0
      requires num == n - |Left(0)|
      requires IsMultiple(Sum(Left(0)) + len, initLen)
      modifies vis
      ensures found <==> old(Feasible(stick[..n], vis[..n], len, initLen, start))
      ensures !found ==> vis[..] == old(vis[..])
      ensures found ==> forall i | 0 <= i < n :: vis[i]
      decreases n - num
    {
      hide Feasible, Uses, Passed, IsMultiple, Sum, Unused;
      ghost var s, v := stick[..n], vis[..n];
      ghost var total := Sum(Unused(s, v, 0));
      assert IsMultiple(total + len, initLen);
      NoneUnused(s, v, 0);
      assert Sum(multiset{}) == 0 by { EmptySum(); }
      if num == n {
        SmallMultiple(len, initLen);
        NothingLeft(s, v, initLen);
        return true;
      }
      PassNothing(s, v, len, initLen, start);
      var tmp := -1;
      var i := start;
      while i < n
        invariant start <= i <= n
        invariant vis[..] == old(vis[..])
        invariant Passed(s, v, len, initLen, start, i, tmp)
        invariant len == 0 ==> tmp == -1 && forall j | 0 <= j < i :: v[j]
      {
        if vis[i] || stick[i] == tmp {
          PassSkipped(s, v, len, initLen, start, i, tmp);
          i := i + 1;
          continue;
        }
        ghost var was, uses := tmp, Uses(Unused(s, v, 0), Unused(s, v, i), s[i], len, initLen);
        assert len > 0 ==> IsMultiple(total + len, initLen);
        vis[i] := true;
        Marked(s, v, i);
        assert stick[..n] == s && vis[..n] == v[i := true];
        if len + stick[i] < initLen {
          assert total - s[i] + (len + s[i]) == total + len;
          ghost var answer := Feasible(stick[..n], vis[..n], len + stick[i], initLen, i + 1);
          assert answer == uses by { ChosenShort(s, v, i, len, initLen); }
          found := Dfs(len + stick[i], initLen, i + 1, num + 1);
          assert found == answer;
          if found {
            UsesMeansFeasible(s, v, len, initLen, start, i);
            return true;
          } else {
            tmp := stick[i];
          }
        } else if len + stick[i] == initLen {
          OneGroupLess(total + len, initLen);
          assert total - s[i] + 0 == total + len - initLen;
          ghost var answer := Feasible(stick[..n], vis[..n], 0, initLen, 0);
          assert answer == uses by { ChosenExact(s, v, i, len, initLen); }
          found := Dfs(0, initLen, 0, num + 1);
          assert found == answer;
          if found {
            UsesMeansFeasible(s, v, len, initLen, start, i);
            return true;
          } else {
            tmp := stick[i];
          }
        } else {
          assert !uses by { ChosenLong(s, v, i, len, initLen); }
        }
        vis[i] := false;
        assert vis[..] == old(vis[..]);
        if len == 0 {
          FirstMustFit(s, v, i, initLen);
          assert !Feasible(s, v, len, initLen, start);
          break;
        }
        PassFailed(s, v, len, initLen, start, i, was, tmp);
        i := i + 1;
      }
      if len > 0 {
        PassedAll(s, v, len, initLen, start, tmp);
      }
      return false;
    }

    /** The reading loop of one scenario of `main`. */
    method ReadSticks(input: seq<int>) returns (sumLen: int)
      requires 1 <= |input| <= MAXN == stick.Length
      modifies `n, stick
      ensures n == |input| && stick[..n] == input && sumLen == Sum(multiset(input))
    {
      hide Sum;
      n := |input|;
      sumLen := 0;
      var i := 0;
      while i < n
        invariant 0 <= i <= n == |input|
        invariant stick[..i] == input[..i]
        invariant sumLen == Total(input, i)
      {
        stick[i] := input[i];
        sumLen := sumLen + stick[i];
        i := i + 1;
      }
      TotalIsSum(input, n);
      assert input[..n] == input;
    }

    /** The first part of one scenario of `main`: reads the sticks and sorts them, the longest first. */
    method Read(input: seq<int>) returns (sumLen: int)
      requires 1 <= |input| <= MAXN == stick.Length == vis.Length
      requires forall x | x in input :: x > 0
      modifies this, stick
      ensures Valid() && n == |input|
      ensures multiset(stick[..n]) == multiset(input)
      ensures forall i, j | 0 <= i < j < n :: stick[i] >= stick[j]
      ensures sumLen == Sum(multiset(input))
    {
      hide Sum, Ordered;
      sumLen := ReadSticks(input);
      Qsort(x => -x, stick, n);
      LongestFirst(input, stick[..n]);
    }

    /** One scenario of `main`: tries the lengths from the longest stick to half the total. */
    method Solve(input: seq<int>) returns (printed: int)
      requires 1 <= |input| <= MAXN == stick.Length == vis.Length
      requires forall x | x in input :: x > 0
      modifies this, stick, vis
      ensures IsLeastLength(multiset(input), printed)
    {
      hide Feasible, Splits, IsMultiple, Sum, Unused, Divides;
      ghost var pile := multiset(input);
      var sumLen := Read(input);
      ghost var s := stick[..n];
      TooShort(pile, s[0]);
      var initLen := stick[0];
      while initLen <= sumLen - initLen
        invariant Valid() && stick[..n] == s
        invariant 1 <= initLen
        invariant forall k | 1 <= k < initLen :: !Splits(pile, k)
      {
        forall j | 0 <= j < MAXN {
          vis[j] := false;
        }
        assert stick[..n] == s;
        FreshStart(s, vis[..n], pile, initLen);
        if Divides(initLen, sumLen) {
          DividesMultiple(initLen, sumLen);
          var found := Dfs(0, initLen, 0, 0);
          if found {
            return initLen;
          }
        }
        initLen := initLen + 1;
      }
      PastHalf(pile, initLen);
      OneGroup(pile);
      return sumLen;
    }
  }
}
