/** Joining boards two at a time, each join costing the length of the new board:
    the program always joins the two shortest. A complete plan of joins is a binary
    tree with the boards at its leaves. */
module BoardMerge {
  import opened Basics
  import opened CLibrary
  import opened Multisets

  datatype Plan = Board(length: int) | Join(left: Plan, right: Plan)

  function Weight(t: Plan): int {
    match t
    case Board(w) => w
    case Join(l, r) => Weight(l) + Weight(r)
  }

  ghost function Boards(t: Plan): multiset<int> {
    match t
    case Board(w) => multiset{w}
    case Join(l, r) => Boards(l) + Boards(r)
  }

  function Cost(t: Plan): int {
    match t
    case Board(_) => 0
    case Join(l, r) => Weight(t) + Cost(l) + Cost(r)
  }

  ghost predicate IsLeastCost(m: multiset<int>, cost: int) {
    && (exists t :: Boards(t) == m && Cost(t) == cost)
    && (forall t | Boards(t) == m :: cost <= Cost(t))
  }

  // -------------------------------------------------------- changing a plan's boards

  lemma {:induction false} TimesNegates(k: nat, x: int)
    ensures Times(k, -x) == -Times(k, x)
  {
    if k > 0 {
      TimesNegates(k - 1, x);
    }
  }

  lemma {:induction false} TimesGrows(j: nat, k: nat, x: int)
    requires j <= k && x >= 0
    ensures Times(j, x) <= Times(k, x)
    decreases k
  {
    if j < k {
      TimesGrows(j, k - 1, x);
    }
  }

  /** How many joins lie above the first board of length `p`. */
  ghost function Depth(t: Plan, p: int): nat
    requires p in Boards(t)
  {
    match t
    case Board(_) => 0
    case Join(l, r) => 1 + if p in Boards(l) then Depth(l, p) else Depth(r, p)
  }

  /** The plan with a board of length `q` in place of the first of length `p`. */
  ghost function Replace(t: Plan, p: int, q: int): Plan
    requires p in Boards(t)
  {
    match t
    case Board(_) => Board(q)
    case Join(l, r) => if p in Boards(l) then Join(Replace(l, p, q), r) else Join(l, Replace(r, p, q))
  }

  lemma InJoin(l: Plan, r: Plan, p: int)
    ensures Boards(Join(l, r)) == Boards(l) + Boards(r)
    ensures p in Boards(Join(l, r)) <==> p in Boards(l) || p in Boards(r)
  {
  }

  lemma {:induction false} ReplaceBoards(t: Plan, p: int, q: int)
    requires p in Boards(t)
    ensures Boards(Replace(t, p, q)) + multiset{p} == Boards(t) + multiset{q}
  {
    match t
    case Board(_) =>
    case Join(l, r) =>
      hide Boards;
      InJoin(l, r, p);
      if p in Boards(l) {
        ReplaceBoards(l, p, q);
        InJoin(Replace(l, p, q), r, p);
        SwapOne(Boards(Replace(l, p, q)), Boards(l), Boards(r), multiset{p}, multiset{q});
      } else {
        ReplaceBoards(r, p, q);
        InJoin(l, Replace(r, p, q), p);
        SwapOne(Boards(Replace(r, p, q)), Boards(r), Boards(l), multiset{p}, multiset{q});
      }
  }

  lemma SwapOne<T>(a': multiset<T>, a: multiset<T>, rest: multiset<T>, p: multiset<T>, q: multiset<T>)
    requires a' + p == a + q
    ensures a' + rest + p == a + rest + q
    ensures rest + a' + p == rest + a + q
  {
    assert a' + rest + p == (a' + p) + rest;
    assert a + rest + q == (a + q) + rest;
    assert rest + a' == a' + rest && rest + a == a + rest;
  }

  lemma {:induction false} ReplaceWeight(t: Plan, p: int, q: int)
    requires p in Boards(t)
    ensures Weight(Replace(t, p, q)) == Weight(t) + (q - p)
  {
    match t
    case Board(_) =>
    case Join(l, r) =>
      InJoin(l, r, p);
      hide Boards;
      if p in Boards(l) {
        ReplaceWeight(l, p, q);
      } else {
        ReplaceWeight(r, p, q);
      }
  }

  lemma {:induction false} ReplaceCost(t: Plan, p: int, q: int)
    requires p in Boards(t)
    ensures Cost(Replace(t, p, q)) == Cost(t) + Times(Depth(t, p), q - p)
  {
    ReplaceWeight(t, p, q);
    match t
    case Board(_) =>
    case Join(l, r) =>
      InJoin(l, r, p);
      hide Boards, Weight;
      if p in Boards(l) {
        ReplaceCost(l, p, q);
      } else {
        ReplaceCost(r, p, q);
      }
  }

  /** Two boards in different plans, of which the shorter is to lose `d` and the
      longer to gain it: one of the two ways round does not raise the cost. */
  lemma SpreadAcross(l: Plan, r: Plan, p: int, q: int, d: int) returns (l': Plan, r': Plan)
    requires p in Boards(l) && q in Boards(r) && p <= q && d >= 0
    ensures Boards(l') + Boards(r') + multiset{p} + multiset{q} ==
            Boards(l) + Boards(r) + multiset{p - d} + multiset{q + d}
    ensures Weight(l') + Weight(r') == Weight(l) + Weight(r)
    ensures Cost(l') + Cost(r') <= Cost(l) + Cost(r)
  {
    hide Boards, Weight, Cost, Depth, Replace, Times;
    var a, b := Depth(l, p), Depth(r, q);
    var p', q' := if a >= b then p - d else q + d, if a >= b then q + d else p - d;
    l', r' := Replace(l, p, p'), Replace(r, q, q');
    ReplaceBoards(l, p, p');
    ReplaceBoards(r, q, q');
    Exchange(Boards(l'), Boards(r'), Boards(l), Boards(r), multiset{p}, multiset{q}, multiset{p'}, multiset{q'});
    ReplaceWeight(l, p, p');
    ReplaceWeight(r, q, q');
    ReplaceCost(l, p, p');
    ReplaceCost(r, q, q');
    if a >= b {
      TimesNegates(a, d);
      TimesGrows(b, a, d);
    } else {
      TimesNegates(b, q + d - p);
      TimesGrows(a, b, q + d - p);
      SwapSum(Boards(l) + Boards(r), multiset{p'}, multiset{q'});
    }
  }

  lemma Exchange<T>(l': multiset<T>, r': multiset<T>, l: multiset<T>, r: multiset<T>,
                    p: multiset<T>, q: multiset<T>, p': multiset<T>, q': multiset<T>)
    requires l' + p == l + p' && r' + q == r + q'
    ensures l' + r' + p + q == l + r + p' + q'
  {
    assert l' + r' + p + q == (l' + p) + (r' + q);
  }

  ghost predicate Has(m: multiset<int>, p: int, q: int) {
    multiset{p} + multiset{q} <= m
  }

  lemma HasIs(m: multiset<int>, p: int, q: int)
    ensures Has(m, p, q) <==> multiset{p} + multiset{q} <= m
  {
  }

  lemma HasOneEach(l: multiset<int>, r: multiset<int>, p: int, q: int)
    requires Has(l + r, p, q)
    ensures Has(l, p, q) || Has(r, p, q) || (p in l && q in r) || (q in l && p in r)
  {
    assert (multiset{p} + multiset{q})[p] >= 1 && (multiset{p} + multiset{q})[q] >= 1;
    assert p == q ==> (multiset{p} + multiset{q})[p] == 2;
  }

  lemma PairSize(m: multiset<int>, p: int, q: int)
    requires Has(m, p, q)
    ensures |m| >= 2
  {
    var pair := multiset{p} + multiset{q};
    assert m == pair + (m - pair);
  }

  /** Spreading two boards further apart never raises the least cost. */
  lemma {:induction false} Spread(t: Plan, p: int, q: int, d: int) returns (t': Plan)
    requires Has(Boards(t), p, q) && p <= q && d >= 0
    ensures Boards(t') + multiset{p} + multiset{q} == Boards(t) + multiset{p - d} + multiset{q + d}
    ensures Weight(t') == Weight(t)
    ensures Cost(t') <= Cost(t)
    decreases t, 1
  {
    t' := t;
    match t
    case Board(w) =>
      PairSize(Boards(t), p, q);
      assert false;
    case Join(l, r) =>
      t' := SpreadJoin(l, r, p, q, d);
  }

  lemma {:induction false} SpreadJoin(l: Plan, r: Plan, p: int, q: int, d: int) returns (t': Plan)
    requires Has(Boards(l) + Boards(r), p, q) && p <= q && d >= 0
    ensures Boards(t') + multiset{p} + multiset{q} == Boards(l) + Boards(r) + multiset{p - d} + multiset{q + d}
    ensures Weight(t') == Weight(l) + Weight(r)
    ensures Cost(t') <= Cost(l) + Cost(r) + Weight(l) + Weight(r)
    decreases Join(l, r), 0
  {
    HasOneEach(Boards(l), Boards(r), p, q);
    hide Boards, Has;
    if Has(Boards(l), p, q) {
      var l' := Spread(l, p, q, d);
      t' := Join(l', r);
      InJoin(l', r, p);
      SwapIn(Boards(l'), Boards(l), Boards(r), multiset{p}, multiset{q}, multiset{p - d}, multiset{q + d});
    } else if Has(Boards(r), p, q) {
      var r' := Spread(r, p, q, d);
      t' := Join(l, r');
      InJoin(l, r', p);
      SwapIn(Boards(r'), Boards(r), Boards(l), multiset{p}, multiset{q}, multiset{p - d}, multiset{q + d});
    } else if p in Boards(l) && q in Boards(r) {
      var l', r' := SpreadAcross(l, r, p, q, d);
      t' := Join(l', r');
      InJoin(l', r', p);
    } else {
      var l', r' := SpreadAcross(r, l, p, q, d);
      t' := Join(l', r');
      InJoin(l', r', p);
      assert Boards(r) + Boards(l) == Boards(l) + Boards(r);
    }
  }

  lemma SwapIn<T>(a': multiset<T>, a: multiset<T>, rest: multiset<T>,
                  p: multiset<T>, q: multiset<T>, p': multiset<T>, q': multiset<T>)
    requires a' + p + q == a + p' + q'
    ensures a' + rest + p + q == a + rest + p' + q'
    ensures rest + a' + p + q == rest + a + p' + q'
  {
    assert a' + rest + p + q == (a' + p + q) + rest;
    assert a + rest + p' + q' == (a + p' + q') + rest;
    assert rest + a' == a' + rest && rest + a == a + rest;
  }

  // ------------------------------------------------------------- the first join

  /** Some join of two single boards, and the plan with their sum as one board. */
  lemma {:induction false} Undo(t: Plan) returns (a: int, b: int, t1: Plan)
    requires t.Join?
    ensures Has(Boards(t), a, b)
    ensures Boards(t) + multiset{a + b} == Boards(t1) + multiset{a} + multiset{b}
    ensures Weight(t1) == Weight(t)
    ensures Cost(t) == Cost(t1) + a + b
  {
    hide *;
    var l, r := t.left, t.right;
    JoinIs(l, r);
    if l.Board? && r.Board? {
      a, b := l.length, r.length;
      t1 := Board(a + b);
      PairOfBoards(a, b);
      BoardIs(a);
      BoardIs(b);
      BoardIs(a + b);
      assert t == Join(Board(a), Board(b));
    } else if l.Join? {
      var l1;
      a, b, l1 := Undo(l);
      t1 := Join(l1, r);
      JoinIs(l1, r);
      UndoLeft(t, a, b, l1);
    } else {
      var r1;
      a, b, r1 := Undo(r);
      t1 := Join(l, r1);
      JoinIs(l, r1);
      UndoRight(t, a, b, r1);
    }
  }

  lemma JoinIs(l: Plan, r: Plan)
    ensures Weight(Join(l, r)) == Weight(l) + Weight(r) && Cost(Join(l, r)) == Weight(l) + Weight(r) + Cost(l) + Cost(r)
  {
  }

  lemma BoardIs(b: int)
    ensures Weight(Board(b)) == b && Cost(Board(b)) == 0
  {
  }

  lemma UndoLeft(t: Plan, a: int, b: int, l1: Plan)
    requires t.Join? && Has(Boards(t.left), a, b)
    requires Boards(t.left) + multiset{a + b} == Boards(l1) + multiset{a} + multiset{b}
    ensures Has(Boards(t), a, b)
    ensures Boards(t) + multiset{a + b} == Boards(Join(l1, t.right)) + multiset{a} + multiset{b}
  {
    hide *;
    InJoin(t.left, t.right, 0);
    InJoin(l1, t.right, 0);
    HasIs(Boards(t.left), a, b);
    HasIs(Boards(t), a, b);
    SubsetOfSum(multiset{a} + multiset{b}, Boards(t.left), Boards(t.right));
    UndoIn(Boards(l1), Boards(t.left), Boards(t.right), multiset{a}, multiset{b}, multiset{a + b});
  }

  lemma UndoRight(t: Plan, a: int, b: int, r1: Plan)
    requires t.Join? && Has(Boards(t.right), a, b)
    requires Boards(t.right) + multiset{a + b} == Boards(r1) + multiset{a} + multiset{b}
    ensures Has(Boards(t), a, b)
    ensures Boards(t) + multiset{a + b} == Boards(Join(t.left, r1)) + multiset{a} + multiset{b}
  {
    hide *;
    InJoin(t.left, t.right, 0);
    InJoin(t.left, r1, 0);
    HasIs(Boards(t.right), a, b);
    HasIs(Boards(t), a, b);
    SubsetOfSum(multiset{a} + multiset{b}, Boards(t.right), Boards(t.left));
    assert Boards(t.right) + Boards(t.left) == Boards(t.left) + Boards(t.right);
    UndoIn(Boards(r1), Boards(t.right), Boards(t.left), multiset{a}, multiset{b}, multiset{a + b});
  }

  lemma PairOfBoards(a: int, b: int)
    ensures Has(Boards(Join(Board(a), Board(b))), a, b)
    ensures Boards(Join(Board(a), Board(b))) + multiset{a + b} == Boards(Board(a + b)) + multiset{a} + multiset{b}
  {
    assert Boards(Join(Board(a), Board(b))) == multiset{a} + multiset{b};
    SwapSum(multiset{}, multiset{a} + multiset{b}, multiset{a + b});
    assert multiset{a} + multiset{b} + multiset{a + b} == multiset{a + b} + multiset{a} + multiset{b};
  }

  lemma UndoIn<T>(m1: multiset<T>, m: multiset<T>, rest: multiset<T>, a: multiset<T>, b: multiset<T>, ab: multiset<T>)
    requires m + ab == m1 + a + b
    ensures m + rest + ab == m1 + rest + a + b
    ensures rest + m + ab == rest + m1 + a + b
  {
    assert m + rest + ab == (m + ab) + rest;
    assert m1 + rest + a + b == (m1 + a + b) + rest;
    assert rest + m == m + rest && rest + m1 == m1 + rest;
  }

  /** The plan with a join of `a` and `b` in place of a board of length `a + b`. */
  lemma {:induction false} Redo(t: Plan, a: int, b: int) returns (t': Plan)
    requires a + b in Boards(t)
    ensures Boards(t') + multiset{a + b} == Boards(t) + multiset{a} + multiset{b}
    ensures Weight(t') == Weight(t)
    ensures Cost(t') == Cost(t) + a + b
  {
    match t
    case Board(_) =>
      t' := Join(Board(a), Board(b));
      assert Boards(t') == multiset{a} + multiset{b};
    case Join(l, r) =>
      InJoin(l, r, a + b);
      hide Boards;
      if a + b in Boards(l) {
        var l' := Redo(l, a, b);
        t' := Join(l', r);
        InJoin(l', r, a);
        UndoIn(Boards(l), Boards(l'), Boards(r), multiset{a}, multiset{b}, multiset{a + b});
      } else {
        var r' := Redo(r, a, b);
        t' := Join(l, r');
        InJoin(l, r', a);
        UndoIn(Boards(r), Boards(r'), Boards(l), multiset{a}, multiset{b}, multiset{a + b});
      }
  }

  ghost predicate AtLeast(m: multiset<int>, y: int) {
    forall z | z in m :: y <= z
  }

  /** `x` and `y` are the two shortest of the boards `rest + {x, y}`. */
  ghost predicate Shortest(x: int, y: int, rest: multiset<int>) {
    0 <= x <= y && AtLeast(rest, y)
  }

  /** `t'` joins `x` and `y` into one board and is no dearer than `t` for it. */
  ghost predicate JoinsFirst(t: Plan, t': Plan, x: int, y: int, rest: multiset<int>) {
    Boards(t') == rest + multiset{x + y} && x + y + Cost(t') <= Cost(t)
  }

  lemma {:induction false} WeightIsSum(t: Plan)
    ensures Weight(t) == Sum(Boards(t))
  {
    match t
    case Board(w) =>
      EmptySum();
      SumAdd(multiset{}, w);
      assert multiset{} + multiset{w} == multiset{w};
    case Join(l, r) =>
      WeightIsSum(l);
      WeightIsSum(r);
      SumUnion(Boards(l), Boards(r));
  }

  lemma {:induction false} CostAtLeastWeight(t: Plan)
    requires AtLeast(Boards(t), 0)
    ensures Weight(t) >= 0 && Cost(t) >= 0
    ensures t.Join? ==> Cost(t) >= Weight(t)
  {
    match t
    case Board(w) => assert w in Boards(t);
    case Join(l, r) =>
      InJoin(l, r, 0);
      assert forall z | z in Boards(l) :: z in Boards(l) + Boards(r);
      assert forall z | z in Boards(r) :: z in Boards(l) + Boards(r);
      CostAtLeastWeight(l);
      CostAtLeastWeight(r);
  }

  // -------------------------------------------- joining the two shortest comes first

  /** What a plan holds once its board `c` is opened up into `a` and `b`. */
  lemma Opened<T>(m': multiset<T>, m: multiset<T>, rest: multiset<T>, c: multiset<T>, a: multiset<T>, b: multiset<T>)
    requires m' + c == m + a + b && m == rest + c
    ensures m' == rest + a + b
  {
    assert rest + c + a + b == rest + a + b + c;
    Cancel(m', rest + a + b, c);
  }

  /** The plan already joins the two shortest. */
  lemma JoinedAlready(t: Plan, t1: Plan, a: int, b: int, x: int, y: int, rest: multiset<int>)
    requires Boards(t) == rest + multiset{x} + multiset{y}
    requires Boards(t) + multiset{a + b} == Boards(t1) + multiset{a} + multiset{b}
    requires multiset{a} + multiset{b} == multiset{x} + multiset{y} && a + b == x + y
    requires Cost(t) == Cost(t1) + a + b
    ensures JoinsFirst(t, t1, x, y, rest)
  {
    hide Boards, Cost;
    var pair := multiset{x} + multiset{y};
    assert Boards(t1) + pair == Boards(t1) + multiset{a} + multiset{b};
    assert Boards(t1) + pair == rest + multiset{x + y} + pair;
    Cancel(Boards(t1), rest + multiset{x + y}, pair);
  }

  /** The plan joins two others: the two shortest may as well be joined before them. */
  lemma JoinedOthers(t: Plan, t1: Plan, t2: Plan, a: int, b: int, x: int, y: int, others: multiset<int>)
      returns (t': Plan)
    requires Cost(t) == Cost(t1) + a + b
    requires JoinsFirst(t1, t2, x, y, others + multiset{a + b})
    ensures JoinsFirst(t, t', x, y, others + multiset{a} + multiset{b})
  {
    hide Boards, Cost;
    assert a + b in Boards(t2);
    t' := Redo(t2, a, b);
    SwapSum(others, multiset{a + b}, multiset{x + y});
    Opened(Boards(t'), Boards(t2), others + multiset{x + y}, multiset{a + b}, multiset{a}, multiset{b});
    assert others + multiset{x + y} + multiset{a} + multiset{b} ==
           others + multiset{a} + multiset{b} + multiset{x + y};
  }

  /** The plan joins one of the two shortest, `u`, to a third board `b`, the last there is. */
  lemma ThreeBoards(t: Plan, t1: Plan, u: int, v: int, b: int) returns (t': Plan)
    requires Cost(t) == Cost(t1) + u + b && Boards(t1) == multiset{v} + multiset{u + b}
    requires 0 <= u && 0 <= v <= b
    ensures JoinsFirst(t, t', u, v, multiset{b})
  {
    t' := Join(Board(u + v), Board(b));
    hide Boards, Cost;
    InJoin(Board(u + v), Board(b), 0);
    TwoBoardsLeft(u + v, b);
    TwoBoardsCost(t1, v, u + b);
  }

  lemma TwoBoardsLeft(p: int, q: int)
    ensures Boards(Join(Board(p), Board(q))) == multiset{q} + multiset{p}
    ensures Cost(Join(Board(p), Board(q))) == p + q
  {
    assert multiset{p} + multiset{q} == multiset{q} + multiset{p};
    assert Weight(Board(p)) == p && Weight(Board(q)) == q;
    assert Cost(Board(p)) == Cost(Board(q)) == 0;
  }

  lemma TwoBoardsCost(t: Plan, p: int, q: int)
    requires Boards(t) == multiset{p} + multiset{q} && p >= 0 && q >= 0
    ensures Cost(t) >= p + q
  {
    NotOneBoard(t);
    assert AtLeast(Boards(t), 0);
    hide Boards, Cost, Sum;
    CostAtLeastWeight(t);
    WeightIsSum(t);
    PairSum(p, q);
  }

  lemma NotOneBoard(t: Plan)
    requires |Boards(t)| >= 2
    ensures t.Join?
  {
  }

  lemma PairSum(p: int, q: int)
    ensures Sum(multiset{p} + multiset{q}) == p + q
  {
    EmptySum();
    SumAdd(multiset{}, p);
    SumAdd(multiset{p}, q);
    assert multiset{} + multiset{p} == multiset{p};
  }

  /** ... and then joins `v` to that. */
  lemma JoinedInARow(t: Plan, t1: Plan, t2: Plan, u: int, v: int, b: int, others: multiset<int>)
      returns (t': Plan)
    requires Cost(t) == Cost(t1) + u + b && v <= b
    requires JoinsFirst(t1, t2, v, u + b, others)
    ensures JoinsFirst(t, t', u, v, others + multiset{b})
  {
    hide Boards, Cost;
    assert u + v + b in Boards(t2);
    t' := Redo(t2, u + v, b);
    Opened(Boards(t'), Boards(t2), others, multiset{u + v + b}, multiset{u + v}, multiset{b});
    SwapSum(others, multiset{u + v}, multiset{b});
  }

  /** Two boards made more unequal without changing their sum. */
  lemma SpreadPair(t: Plan, p: int, q: int, p': int, q': int, others: multiset<int>) returns (t': Plan)
    requires Boards(t) == others + multiset{p} + multiset{q}
    requires p' <= p && p' <= q && p + q == p' + q'
    ensures Boards(t') == others + multiset{p'} + multiset{q'}
    ensures Cost(t') <= Cost(t)
  {
    hide Boards, Cost;
    if p <= q {
      assert Has(Boards(t), p, q);
      t' := Spread(t, p, q, p - p');
      assert p - (p - p') == p' && q + (p - p') == q';
      PairSwapped(Boards(t'), others, multiset{p}, multiset{q}, multiset{p'}, multiset{q'});
    } else {
      assert Has(Boards(t), q, p);
      t' := Spread(t, q, p, q - p');
      assert q - (q - p') == p' && p + (q - p') == q';
      SwapSum(others, multiset{p}, multiset{q});
      PairSwapped(Boards(t'), others, multiset{q}, multiset{p}, multiset{p'}, multiset{q'});
    }
  }

  lemma PairSwapped<T>(m: multiset<T>, others: multiset<T>, p: multiset<T>, q: multiset<T>,
                       p': multiset<T>, q': multiset<T>)
    requires m + p + q == others + p + q + p' + q'
    ensures m == others + p' + q'
  {
    assert m + (p + q) == m + p + q;
    assert others + p + q + p' + q' == others + p' + q' + (p + q);
    Cancel(m, others + p' + q', p + q);
  }

  /** ... and then joins `v` to a fourth board `z`: the two sums can be spread apart. */
  lemma JoinedCrosswise(t: Plan, t1: Plan, t2: Plan, u: int, v: int, b: int, z: int, others: multiset<int>)
      returns (t': Plan)
    requires Cost(t) == Cost(t1) + u + b && u <= z && v <= b
    requires JoinsFirst(t1, t2, v, z, others + multiset{u + b})
    ensures JoinsFirst(t, t', u, v, others + multiset{z} + multiset{b})
  {
    hide Boards, Cost;
    var t3 := SpreadPair(t2, u + b, v + z, u + v, b + z, others);
    assert b + z in Boards(t3);
    t' := Redo(t3, b, z);
    Opened(Boards(t'), Boards(t3), others + multiset{u + v}, multiset{b + z}, multiset{b}, multiset{z});
    SwapThree(others, multiset{u + v}, multiset{b}, multiset{z});
  }

  /** The shortest board of `m`. */
  ghost function Least(m: multiset<int>): (z: int)
    requires m != multiset{}
    ensures z in m
    decreases |m|
  {
    var z := Pick(m);
    var rest := Without(m, z);
    if rest == multiset{} then z
    else if Least(rest) < z then Least(rest)
    else z
  }

  lemma {:induction false} LeastIsLeast(m: multiset<int>)
    requires m != multiset{}
    ensures AtLeast(m, Least(m))
    decreases |m|
  {
    var z := Pick(m);
    var rest := Without(m, z);
    if rest != multiset{} {
      LeastIsLeast(rest);
    }
    forall v | v in m ensures Least(m) <= v {
      assert v in rest + multiset{z};
    }
  }

  lemma LeastOf(m: multiset<int>) returns (z: int, rest: multiset<int>)
    requires m != multiset{}
    ensures z == Least(m) && rest == Without(m, z)
    ensures m == rest + multiset{z} && |rest| == |m| - 1 && AtLeast(rest, z)
  {
    z := Least(m);
    rest := Without(m, z);
    LeastIsLeast(m);
    forall v | v in rest ensures z <= v {
      assert v in rest + multiset{z};
    }
  }

  lemma AtLeastPlus(m: multiset<int>, w: int, z: int)
    requires forall v | v in m :: z <= v || w <= v
    requires z <= w
    ensures AtLeast(m + multiset{w}, z)
  {
  }

  lemma OthersAreLeft(rest: multiset<int>, x: int, y: int, a: int, b: int)
    requires Has(rest + multiset{x} + multiset{y}, a, b)
    ensures a != x && a != y ==> a in rest
    ensures b != x && b != y ==> b in rest
    ensures a == x && b != y ==> b in rest
    ensures a == y && b != x ==> b in rest
    ensures a != x && a != y && b != x && b != y ==>
              rest == rest - multiset{a} - multiset{b} + multiset{a} + multiset{b}
  {
    assert (multiset{a} + multiset{b})[a] >= 1 && (multiset{a} + multiset{b})[b] >= 1;
    assert a == b ==> (multiset{a} + multiset{b})[a] == 2;
  }

  lemma {:induction false} OneShared(t: Plan, t1: Plan, u: int, v: int, b: int,
                                     others: multiset<int>) returns (t': Plan)
    requires Boards(t1) == others + multiset{v} + multiset{u + b}
    requires Cost(t) == Cost(t1) + u + b
    requires 0 <= u && 0 <= v <= b && AtLeast(others, u) && AtLeast(others, v)
    ensures JoinsFirst(t, t', u, v, others + multiset{b})
    decreases |others| + 1, 0
  {
    hide Boards, Cost, JoinsFirst;
    if others == multiset{} {
      assert others + multiset{v} == multiset{v} && others + multiset{b} == multiset{b};
      t' := ThreeBoards(t, t1, u, v, b);
    } else {
      var z, rest := LeastOf(others);
      assert z in others;
      t' := FourBoards(t, t1, u, v, b, z, rest);
    }
  }

  lemma {:induction false} FourBoards(t: Plan, t1: Plan, u: int, v: int, b: int, z: int, rest: multiset<int>)
      returns (t': Plan)
    requires Boards(t1) == rest + multiset{z} + multiset{v} + multiset{u + b}
    requires Cost(t) == Cost(t1) + u + b
    requires 0 <= u <= z && 0 <= v <= z && v <= b && AtLeast(rest, z)
    ensures JoinsFirst(t, t', u, v, rest + multiset{z} + multiset{b})
    decreases |rest| + 1, 3
  {
    hide Boards, Cost, JoinsFirst;
    if u + b <= z {
      AtLeastPlus(rest, z, u + b);
      var t2 := ShortestFirst(t1, v, u + b, rest + multiset{z});
      t' := JoinedInARow(t, t1, t2, u, v, b, rest + multiset{z});
    } else {
      SwapThree(rest, multiset{z}, multiset{v}, multiset{u + b});
      AtLeastPlus(rest, u + b, z);
      var t2 := ShortestFirst(t1, v, z, rest + multiset{u + b});
      t' := JoinedCrosswise(t, t1, t2, u, v, b, z, rest);
    }
  }

  lemma SwapThree<T>(m: multiset<T>, a: multiset<T>, b: multiset<T>, c: multiset<T>)
    ensures m + a + b + c == m + c + b + a
  {
  }

  lemma {:induction false} NoneShared(t: Plan, t1: Plan, a: int, b: int, x: int, y: int, others: multiset<int>)
      returns (t': Plan)
    requires Boards(t) == others + multiset{a} + multiset{b} + multiset{x} + multiset{y}
    requires Shortest(x, y, others) && y <= a && y <= b
    requires Boards(t) + multiset{a + b} == Boards(t1) + multiset{a} + multiset{b}
    requires Cost(t) == Cost(t1) + a + b
    ensures JoinsFirst(t, t', x, y, others + multiset{a} + multiset{b})
    decreases |others| + 2, 0
  {
    hide Boards, Cost;
    var xy := multiset{x} + multiset{y};
    assert others + multiset{a} + multiset{b} + multiset{x} + multiset{y} ==
           others + multiset{a} + multiset{b} + xy;
    PairGone(Boards(t1), others, multiset{a}, multiset{b}, xy, multiset{a + b});
    assert others + multiset{a + b} + multiset{x} + multiset{y} == others + multiset{a + b} + xy;
    AtLeastPlus(others, a + b, y);
    var t2 := ShortestFirst(t1, x, y, others + multiset{a + b});
    t' := JoinedOthers(t, t1, t2, a, b, x, y, others);
  }

  lemma {:induction false} ShortestFirstAfter(t: Plan, t1: Plan, a: int, b: int, x: int, y: int, rest: multiset<int>)
      returns (t': Plan)
    requires Boards(t) == rest + multiset{x} + multiset{y} && Shortest(x, y, rest)
    requires Has(Boards(t), a, b) && a <= b
    requires Boards(t) + multiset{a + b} == Boards(t1) + multiset{a} + multiset{b}
    requires Cost(t) == Cost(t1) + a + b
    ensures JoinsFirst(t, t', x, y, rest)
    decreases |rest|, 1
  {
    hide Boards, Cost;
    OthersAreLeft(rest, x, y, a, b);
    if a == x || a == y {
      var v := if a == x then y else x;
      PairEitherWay(x, y, a, v);
      if b == v {
        JoinedAlready(t, t1, a, b, x, y, rest);
        t' := t1;
      } else {
        hide Has, JoinsFirst;
        var others := TakeOut(rest, b);
        AddPair(rest, multiset{x}, multiset{y}, multiset{a} + multiset{v});
        PairReplaced(Boards(t1), others, multiset{b}, multiset{a}, multiset{v}, multiset{a + b});
        t' := OneShared(t, t1, a, v, b, others);
        SamePair(t, t', a, v, x, y, rest);
      }
    } else {
      hide JoinsFirst;
      assert b != x && b != y;
      var others := rest - multiset{a} - multiset{b};
      t' := NoneShared(t, t1, a, b, x, y, others);
    }
  }

  lemma TakeOut(m: multiset<int>, b: int) returns (others: multiset<int>)
    requires b in m
    ensures m == others + multiset{b}
    ensures forall y | AtLeast(m, y) :: AtLeast(others, y)
  {
    others := m - multiset{b};
  }

  lemma AddPair<T>(m: multiset<T>, x: multiset<T>, y: multiset<T>, xy: multiset<T>)
    requires xy == x + y
    ensures m + x + y == m + xy
  {
  }

  lemma SamePair(t: Plan, t': Plan, u: int, v: int, x: int, y: int, rest: multiset<int>)
    requires JoinsFirst(t, t', u, v, rest) && u + v == x + y
    ensures JoinsFirst(t, t', x, y, rest)
  {
  }

  lemma PairEitherWay(x: int, y: int, u: int, v: int)
    requires (u == x && v == y) || (u == y && v == x)
    ensures multiset{u} + multiset{v} == multiset{x} + multiset{y}
  {
  }

  lemma PairReplaced<T>(m: multiset<T>, others: multiset<T>, b: multiset<T>, u: multiset<T>, v: multiset<T>,
                        ub: multiset<T>)
    requires others + b + (u + v) + ub == m + u + b
    ensures m == others + v + ub
  {
    assert m + (u + b) == m + u + b;
    assert others + b + (u + v) + ub == others + v + ub + (u + b);
    Cancel(m, others + v + ub, u + b);
  }

  lemma PairGone<T>(m: multiset<T>, others: multiset<T>, a: multiset<T>, b: multiset<T>, xy: multiset<T>,
                    ab: multiset<T>)
    requires others + a + b + xy + ab == m + a + b
    ensures m == others + ab + xy
  {
    assert m + (a + b) == m + a + b;
    assert others + a + b + xy + ab == others + ab + xy + (a + b);
    Cancel(m, others + ab + xy, a + b);
  }

  /** Whatever plan there is, one that joins the two shortest first is no dearer. */
  lemma {:induction false} ShortestFirst(t: Plan, x: int, y: int, rest: multiset<int>) returns (t': Plan)
    requires Boards(t) == rest + multiset{x} + multiset{y} && Shortest(x, y, rest)
    ensures JoinsFirst(t, t', x, y, rest)
    decreases |rest|, 2
  {
    hide Boards, Cost;
    NotOneBoardOf(t, x, y, rest);
    var a, b, t1 := Undo(t);
    if b < a {
      SwapSum(Boards(t1), multiset{a}, multiset{b});
      assert multiset{a} + multiset{b} == multiset{b} + multiset{a};
      t' := ShortestFirstAfter(t, t1, b, a, x, y, rest);
    } else {
      t' := ShortestFirstAfter(t, t1, a, b, x, y, rest);
    }
  }

  lemma NotOneBoardOf(t: Plan, x: int, y: int, rest: multiset<int>)
    requires Boards(t) == rest + multiset{x} + multiset{y}
    ensures t.Join?
  {
    assert |rest + multiset{x} + multiset{y}| >= 2;
    NotOneBoard(t);
  }

  // ----------------------------------------------------------------- the greedy cost

  /** What is left when the two shortest boards are taken, and those two. */
  ghost function TakeTwo(m: multiset<int>): (r: (int, int, multiset<int>))
    requires |m| >= 2
    ensures |r.2| == |m| - 2
  {
    var x := Least(m);
    var others := Without(m, x);
    assert others != multiset{};
    var y := Least(others);
    (x, y, Without(others, y))
  }

  lemma TakeTwoShortest(m: multiset<int>)
    requires |m| >= 2 && AtLeast(m, 0)
    ensures var r := TakeTwo(m);
            && m == r.2 + multiset{r.0} + multiset{r.1}
            && Shortest(r.0, r.1, r.2)
            && AtLeast(r.2 + multiset{r.0 + r.1}, 0)
            && |r.2 + multiset{r.0 + r.1}| == |m| - 1
  {
    hide *;
    var x, others := LeastOf(m);
    assert others != multiset{};
    var y, rest := LeastOf(others);
    TakeTwoIs(m);
    InOrder(m, x, others, y, rest);
    ShortestIf(x, y, rest);
  }

  lemma TakeTwoIs(m: multiset<int>)
    requires |m| >= 2
    ensures var x := Least(m);
            Without(m, x) != multiset{}
            && TakeTwo(m) == (x, Least(Without(m, x)), Without(Without(m, x), Least(Without(m, x))))
  {
    hide Least, Without;
  }

  lemma InOrder(m: multiset<int>, x: int, others: multiset<int>, y: int, rest: multiset<int>)
    requires AtLeast(m, 0) && m == others + multiset{x} && AtLeast(others, x)
    requires others == rest + multiset{y} && AtLeast(rest, y)
    ensures m == rest + multiset{x} + multiset{y} && 0 <= x <= y && AtLeast(rest + multiset{x + y}, 0)
  {
    assert x in m && y in others;
    SwapSum(rest, multiset{x}, multiset{y});
    AtLeastPlus(rest, x + y, 0);
  }

  lemma ShortestIf(x: int, y: int, rest: multiset<int>)
    requires 0 <= x <= y && AtLeast(rest, y)
    ensures Shortest(x, y, rest)
  {
  }

  /** What always joining the two shortest boards costs. */
  ghost function GreedyCost(m: multiset<int>): int
    decreases |m|
  {
    if |m| <= 1 then 0 else
      var r := TakeTwo(m);
      r.0 + r.1 + GreedyCost(r.2 + multiset{r.0 + r.1})
  }

  lemma GreedyStep(m: multiset<int>)
    requires |m| >= 1
    ensures if |m| == 1 then GreedyCost(m) == 0
            else var r := TakeTwo(m); GreedyCost(m) == r.0 + r.1 + GreedyCost(r.2 + multiset{r.0 + r.1})
  {
  }

  lemma OneBoard(m: multiset<int>)
    requires |m| == 1 && AtLeast(m, 0)
    ensures IsLeastCost(m, 0)
  {
    var w := Pick(m);
    assert Without(m, w) == multiset{};
    assert multiset{} + multiset{w} == multiset{w};
    assert Boards(Board(w)) == m && Cost(Board(w)) == 0;
    forall t | Boards(t) == m ensures 0 <= Cost(t) {
      CostAtLeastWeight(t);
    }
  }

  lemma NoCheaper(m: multiset<int>, x: int, y: int, rest: multiset<int>, cost: int)
    requires m == rest + multiset{x} + multiset{y} && Shortest(x, y, rest)
    requires IsLeastCost(rest + multiset{x + y}, cost)
    ensures IsLeastCost(m, x + y + cost)
  {
    hide Boards, Cost;
    var t1 :| Boards(t1) == rest + multiset{x + y} && Cost(t1) == cost;
    assert x + y in Boards(t1);
    var t := Redo(t1, x, y);
    Opened(Boards(t), Boards(t1), rest, multiset{x + y}, multiset{x}, multiset{y});
    forall t | Boards(t) == m ensures x + y + cost <= Cost(t) {
      var t' := ShortestFirst(t, x, y, rest);
    }
  }

  /** Joining the two shortest boards each time is the cheapest way of all. */
  lemma {:induction false} GreedyIsLeast(m: multiset<int>)
    requires |m| >= 1 && AtLeast(m, 0)
    ensures IsLeastCost(m, GreedyCost(m))
    decreases |m|
  {
    hide *;
    GreedyStep(m);
    if |m| == 1 {
      OneBoard(m);
    } else {
      var r := TakeTwo(m);
      TakeTwoShortest(m);
      GreedyIsLeast(r.2 + multiset{r.0 + r.1});
      NoCheaper(m, r.0, r.1, r.2, GreedyCost(r.2 + multiset{r.0 + r.1}));
    }
  }

  // ------------------------------------------------------------------- the program

  /** The sentinel that marks an unused entry. */
  const INF := 1_000_000_000_000_000_000

  lemma Int32Adds(a: int, b: int)
    ensures Int32(Int32(a) + b) == Int32(a + b)
  {
  }

  /** The boards among the entries of the array. */
  ghost function Live(s: seq<int>): multiset<int> {
    if s == [] then multiset{}
    else Live(s[1..]) + if s[0] < INF then multiset{s[0]} else multiset{}
  }

  lemma {:induction false} LiveCount(s: seq<int>, x: int)
    ensures Live(s)[x] == if x < INF then multiset(s)[x] else 0
  {
    if s != [] {
      LiveCount(s[1..], x);
      assert s == [s[0]] + s[1..];
    }
  }

  lemma LivePermutes(s: seq<int>, t: seq<int>)
    requires multiset(s) == multiset(t)
    ensures Live(s) == Live(t)
  {
    forall x ensures Live(s)[x] == Live(t)[x] {
      LiveCount(s, x);
      LiveCount(t, x);
    }
  }

  lemma {:induction false} LiveSet(s: seq<int>, i: nat, v: int)
    requires i < |s| && s[i] == INF && v < INF
    ensures Live(s[i := v]) == Live(s) + multiset{v}
  {
    var t := s[i := v];
    if i == 0 {
      assert t[1..] == s[1..];
    } else {
      LiveSet(s[1..], i - 1, v);
      assert t[1..] == s[1..][i - 1 := v];
      SwapSum(Live(s[1..]), multiset{v}, if s[0] < INF then multiset{s[0]} else multiset{});
    }
  }

  lemma {:induction false} LiveAtLeast(s: seq<int>, y: int)
    requires forall i | 0 <= i < |s| :: y <= s[i]
    ensures AtLeast(Live(s), y)
  {
    if s != [] {
      LiveAtLeast(s[1..], y);
    }
  }

  lemma {:induction false} NothingLive(s: seq<int>)
    requires forall i | 0 <= i < |s| :: s[i] >= INF
    ensures Live(s) == multiset{}
  {
    if s != [] {
      NothingLive(s[1..]);
    }
  }

  lemma {:induction false} LiveSize(s: seq<int>)
    ensures |Live(s)| <= |s|
  {
    if s != [] {
      LiveSize(s[1..]);
    }
  }

  /** Entries beyond the live ones of a sorted array are unused. */
  lemma {:induction false} UnusedBehind(s: seq<int>, i: nat)
    requires Ordered(x => x, s) && |Live(s)| <= i < |s|
    ensures s[i] >= INF
  {
    if s[0] < INF {
      UnusedBehind(s[1..], i - 1);
    } else {
      assert (x => x)(s[0]) <= (x => x)(s[i]);
    }
  }

  lemma PairOnTop(m: multiset<int>, x: int, y: int, rest: multiset<int>)
    requires m == rest + multiset{x} + multiset{y}
    ensures |m| >= 2 && |rest + multiset{x + y}| == |m| - 1
    ensures m == rest + multiset{y} + multiset{x}
  {
  }

  lemma TakesThese(m: multiset<int>, x: int, y: int, rest: multiset<int>)
    requires m == rest + multiset{y} + multiset{x} && Shortest(x, y, rest) && |m| >= 2
    ensures TakeTwo(m) == (x, y, rest)
  {
    hide GreedyCost;
    AtLeastPlus(rest, y, x);
    LeastIsIt(m, x, rest + multiset{y});
    LeastIsIt(rest + multiset{y}, y, rest);
  }

  lemma GreedyChoice(m: multiset<int>, x: int, y: int, rest: multiset<int>)
    requires m == rest + multiset{x} + multiset{y} && Shortest(x, y, rest)
    ensures |m| >= 2 && |rest + multiset{x + y}| == |m| - 1
    ensures GreedyCost(m) == x + y + GreedyCost(rest + multiset{x + y})
  {
    hide *;
    PairOnTop(m, x, y, rest);
    TakesThese(m, x, y, rest);
    GreedyStep(m);
  }

  lemma LeastIsIt(m: multiset<int>, x: int, others: multiset<int>)
    requires m == others + multiset{x} && AtLeast(others, x)
    ensures m != multiset{} && Least(m) == x && Without(m, x) == others
  {
    assert x in m;
    LeastIsLeast(m);
    Cancel(Without(m, x), others, multiset{x});
  }

  /** What holds of the array between the rounds, for boards that cost `whole` to
      join, `spent` of it spent so far. */
  ghost predicate Going(s: seq<int>, p: int, n: nat, whole: int, spent: int) {
    var m := Live(s);
    && |s| == 2 * n
    && 1 <= |m| <= n && p == 2 * n - |m|
    && AtLeast(m, 0) && Sum(m) < INF
    && (forall i | 0 <= i < |s| :: s[i] <= INF)
    && whole == spent + GreedyCost(m)
  }

  lemma GoingPermutes(s: seq<int>, t: seq<int>, p: int, n: nat, whole: int, spent: int)
    requires Going(s, p, n, whole, spent) && multiset(t) == multiset(s)
    ensures Going(t, p, n, whole, spent)
  {
    hide GreedyCost, Live, Sum;
    LivePermutes(s, t);
    assert |multiset(t)| == |multiset(s)|;
    forall i | 0 <= i < |t| ensures t[i] <= INF {
      assert t[i] in multiset(t);
      assert t[i] in s;
    }
  }

  lemma SecondIsUnused(s: seq<int>)
    requires |s| >= 2 && Ordered(x => x, s) && s[1] >= INF
    ensures |Live(s)| <= 1
  {
    forall i | 0 <= i < |s[1..]| ensures s[1..][i] >= INF {
      assert (x => x)(s[1]) <= (x => x)(s[i + 1]);
    }
    NothingLive(s[1..]);
  }

  /** In a sorted array with at least two boards the entry at `p` is unused. */
  lemma SortedRound(s: seq<int>, p: int, n: nat, whole: int, spent: int)
    requires Going(s, p, n, whole, spent) && Ordered(x => x, s)
    ensures n >= 1
    ensures s[1] == INF ==> p == 2 * n - 1 && spent == whole
    ensures s[1] != INF ==> 2 <= p < 2 * n - 1 && s[p] == INF
  {
    hide GreedyCost, Sum, Live, Ordered, AtLeast;
    GreedyStep(Live(s));
    if s[1] == INF {
      SecondIsUnused(s);
    } else {
      if |Live(s)| == 1 {
        UnusedBehind(s, 1);
      }
      UnusedBehind(s, p);
    }
  }

  /** The array after the first two boards are joined into entry `p`. */
  function Joined(s: seq<int>, p: nat): seq<int>
    requires 2 <= p < |s|
  {
    s[p := s[0] + s[1]][1 := INF][0 := INF]
  }

  lemma JoinedIs(s: seq<int>, p: nat)
    requires 2 <= p < |s|
    ensures Joined(s, p) == s[p := s[0] + s[1]][1 := INF][0 := INF]
  {
  }

  lemma FirstTwoLive(s: seq<int>)
    requires |s| >= 2 && Ordered(x => x, s) && s[1] < INF && s[0] >= 0
    ensures Live(s) == Live(s[2..]) + multiset{s[0]} + multiset{s[1]}
    ensures Shortest(s[0], s[1], Live(s[2..]))
  {
    assert (x => x)(s[0]) <= (x => x)(s[1]);
    assert s[1..][1..] == s[2..];
    SwapSum(Live(s[2..]), multiset{s[0]}, multiset{s[1]});
    forall i | 0 <= i < |s[2..]| ensures s[1] <= s[2..][i] {
      assert (x => x)(s[1]) <= (x => x)(s[i + 2]);
    }
    LiveAtLeast(s[2..], s[1]);
  }

  lemma JoinedLive(s: seq<int>, p: nat)
    requires 2 <= p < |s| && s[p] == INF && s[0] + s[1] < INF
    ensures Live(Joined(s, p)) == Live(s[2..]) + multiset{s[0] + s[1]}
  {
    var t := Joined(s, p);
    assert t[1..][1..] == s[2..][p - 2 := s[0] + s[1]];
    LiveSet(s[2..], p - 2, s[0] + s[1]);
  }

  lemma SumOfJoin(rest: multiset<int>, x: int, y: int)
    requires 0 <= x && 0 <= y && AtLeast(rest, 0)
    ensures Sum(rest + multiset{x} + multiset{y}) == Sum(rest + multiset{x + y})
    ensures AtLeast(rest + multiset{x + y}, 0)
    ensures x + y <= Sum(rest + multiset{x + y})
  {
    hide Sum;
    SumAdd(rest, x);
    SumAdd(rest + multiset{x}, y);
    SumAdd(rest, x + y);
    SumNonNegative(rest);
    AtLeastPlus(rest, x + y, 0);
  }

  lemma {:induction false} SumNonNegative(m: multiset<int>)
    requires AtLeast(m, 0)
    ensures Sum(m) >= 0
    decreases |m|
  {
    if m != multiset{} {
      SumNonNegative(m - multiset{Pick(m)});
    }
  }

  lemma JoinRound(s: seq<int>, p: nat, n: nat, whole: int, spent: int)
    requires Going(s, p, n, whole, spent) && Ordered(x => x, s) && s[1] != INF
    requires 2 <= p < 2 * n - 1 && s[p] == INF
    ensures s[0] + s[1] < INF
    ensures Going(Joined(s, p), p + 1, n, whole, spent + s[0] + s[1])
    ensures |Live(Joined(s, p))| == |Live(s)| - 1
  {
    hide *;
    GoingMeans(s, p, n, whole, spent);
    FirstIsLive(s);
    FirstTwoLive(s);
    var x, y, rest := s[0], s[1], Live(s[2..]);
    ShortestMeans(x, y, rest);
    SumOfJoin(rest, x, y);
    JoinedLive(s, p);
    JoinedIs(s, p);
    GreedyChoice(Live(s), x, y, rest);
    GoingIf(Joined(s, p), p + 1, n, whole, spent + x + y);
  }

  lemma GoingMeans(s: seq<int>, p: int, n: nat, whole: int, spent: int)
    requires Going(s, p, n, whole, spent)
    ensures |s| == 2 * n && 1 <= |Live(s)| <= n && p == 2 * n - |Live(s)| && AtLeast(Live(s), 0) && Sum(Live(s)) < INF
    ensures (forall i | 0 <= i < |s| :: s[i] <= INF) && whole == spent + GreedyCost(Live(s))
  {
    hide Live, Sum, GreedyCost, AtLeast;
  }

  lemma GoingIf(s: seq<int>, p: int, n: nat, whole: int, spent: int)
    requires |s| == 2 * n && 1 <= |Live(s)| <= n && p == 2 * n - |Live(s)| && AtLeast(Live(s), 0) && Sum(Live(s)) < INF
    requires (forall i | 0 <= i < |s| :: s[i] <= INF) && whole == spent + GreedyCost(Live(s))
    ensures Going(s, p, n, whole, spent)
  {
    hide Live, Sum, GreedyCost, AtLeast;
  }

  lemma ShortestMeans(x: int, y: int, rest: multiset<int>)
    requires Shortest(x, y, rest)
    ensures 0 <= x <= y && AtLeast(rest, 0)
  {
  }

  lemma FirstIsLive(s: seq<int>)
    requires |s| >= 2 && Ordered(x => x, s) && s[1] < INF && AtLeast(Live(s), 0)
    ensures s[0] >= 0
  {
    assert (x => x)(s[0]) <= (x => x)(s[1]);
    assert s[0] in Live(s);
  }

  /** The boards read in, the sentinels behind them. */
  ghost predicate Loaded(s: seq<int>, boards: seq<int>) {
    && |s| == 2 * |boards| && s[..|boards|] == boards
    && forall i | |boards| <= i < |s| :: s[i] == INF
  }

  lemma {:induction false} LoadedLive(s: seq<int>, boards: seq<int>)
    requires |s| >= |boards| && s[..|boards|] == boards
    requires forall i | |boards| <= i < |s| :: s[i] == INF
    requires forall b | b in boards :: b < INF
    ensures Live(s) == multiset(boards)
  {
    if boards == [] {
      NothingLive(s);
    } else {
      assert forall b | b in boards[1..] :: b in boards;
      LoadedLive(s[1..], boards[1..]);
      assert boards == [boards[0]] + boards[1..];
      assert s[0] == boards[0] && s[0] in boards;
    }
  }

  lemma NoneNegative(boards: seq<int>)
    requires forall b | b in boards :: 0 <= b
    ensures AtLeast(multiset(boards), 0)
  {
    forall b | b in multiset(boards) ensures 0 <= b {
      assert b in boards;
    }
  }

  lemma GoingStarts(s: seq<int>, boards: seq<int>)
    requires boards != [] && (forall b | b in boards :: 0 <= b) && Sum(multiset(boards)) < INF
    requires Loaded(s, boards)
    ensures Going(s, |boards|, |boards|, GreedyCost(multiset(boards)), 0)
  {
    hide GreedyCost, Live, Sum;
    var m := multiset(boards);
    NoneNegative(boards);
    forall b | b in boards ensures b < INF {
      assert b in m;
      SumBounds(m, b);
    }
    LoadedLive(s, boards);
    forall i | 0 <= i < |s| ensures s[i] <= INF {
      assert i < |boards| ==> s[i] == s[..|boards|][i] && s[i] in boards;
    }
  }

  lemma SumBounds(m: multiset<int>, b: int)
    requires AtLeast(m, 0) && b in m
    ensures b <= Sum(m)
  {
    SumTake(m, b);
    SumNonNegative(m - multiset{b});
  }

  lemma GreedyPrice(boards: seq<int>)
    requires boards != [] && forall b | b in boards :: 0 <= b
    ensures IsLeastCost(multiset(boards), GreedyCost(multiset(boards)))
    ensures Int32(0) == 0
  {
    hide IsLeastCost, GreedyCost;
    assert |multiset(boards)| == |boards|;
    NoneNegative(boards);
    GreedyIsLeast(multiset(boards));
  }

  /** Fills the array as the reading loop leaves it. */
  method Load(boards: seq<int>) returns (w: array<int>, p: int)
    ensures fresh(w) && Loaded(w[..], boards) && p == |boards|
  {
    var n := |boards|;
    w := new int[2 * n];
    var i := 0;
    while i < 2 * n
      invariant 0 <= i <= 2 * n
      invariant forall j | 0 <= j < i :: w[j] == INF
    {
      w[i] := INF;
      i := i + 1;
    }
    p := 0;
    while p < n
      invariant 0 <= p <= n
      invariant w[..p] == boards[..p]
      invariant forall j | n <= j < 2 * n :: w[j] == INF
    {
      w[p] := boards[p];
      p := p + 1;
    }
    assert w[..][..n] == w[..n] == boards;
  }

  /** One case of `main`, with the entries sorted by value: prints the least cost of
      joining all boards, as far as an int can hold it, after n - 1 joins. */
  method MinCost(boards: seq<int>) returns (mincost: int, ghost joins: nat)
    requires boards != [] && forall b | b in boards :: 0 <= b
    requires Sum(multiset(boards)) < INF
    ensures mincost == Int32(GreedyCost(multiset(boards)))
    ensures IsLeastCost(multiset(boards), GreedyCost(multiset(boards)))
    ensures joins == |boards| - 1
  {
    hide *;
    ghost var whole, spent := GreedyCost(multiset(boards)), 0;
    var n := |boards|;
    var w, p := Load(boards);
    GoingStarts(w[..], boards);
    GreedyPrice(boards);
    mincost := 0;
    joins := 0;
    while true
      invariant w.Length == 2 * n && Going(w[..], p, n, whole, spent)
      invariant mincost == Int32(spent) && joins == p - n
      decreases 2 * n - p
    {
      ghost var before := w[..];
      assert before == w[..2 * n];
      Qsort(x => x, w, 2 * n);
      assert w[..] == w[..2 * n];
      ghost var s := w[..];
      GoingPermutes(before, s, p, n, whole, spent);
      SortedRound(s, p, n, whole, spent);
      if w[1] == INF {
        break;
      }
      JoinRound(s, p, n, whole, spent);
      w[p] := w[0] + w[1];
      w[1] := INF;
      w[0] := w[1];
      JoinedIs(s, p);
      assert w[..] == Joined(s, p);
      Int32Adds(spent, s[0] + s[1]);
      mincost := Int32(mincost + w[p]);
      spent := spent + (s[0] + s[1]);
      p := p + 1;
      joins := joins + 1;
    }
  }

  // ------------------------------------------- the comparison as it is written

  /** `cmp` subtracts the low 32-bit words of two 64-bit entries. For boards up to
      this long its subtraction cannot overflow, not even against the sentinel. */
  const LONGEST := 660_865_023

  lemma SentinelIsNegative()
    ensures Int32(INF) == -1_486_618_624
    ensures forall b | 0 <= b <= LONGEST :: Int32(b) == b
  {
  }

  lemma FirstIsSentinel(s: seq<int>, before: seq<int>)
    requires Ordered(Int32, s) && multiset(s) == multiset(before) && INF in before
    requires forall x | x in before :: x == INF || 0 <= x <= LONGEST
    ensures s != [] && s[0] == INF
  {
    assert INF in multiset(before);
    assert INF in s;
    var k :| 0 <= k < |s| && s[k] == INF;
    assert s[0] in multiset(s);
    assert s[0] in before;
    SentinelIsNegative();
    assert Int32(s[0]) <= Int32(s[k]);
  }

  lemma OrderedBehind(s: seq<int>)
    requires Ordered(Int32, s) && s != []
    ensures Ordered(Int32, s[1..])
  {
    hide Int32;
  }

  lemma TwoSentinels(s: seq<int>, before: seq<int>, j: nat)
    requires Ordered(Int32, s) && multiset(s) == multiset(before)
    requires j + 1 < |before| && before[j] == before[j + 1] == INF
    requires forall x | x in before :: x == INF || 0 <= x <= LONGEST
    ensures |s| >= 2 && s[1] == INF
  {
    hide Int32, Ordered;
    FirstIsSentinel(s, before);
    OrderedBehind(s);
    var rest := before[..j] + before[j + 1..];
    assert before == before[..j] + [INF] + before[j + 1..];
    assert before[j + 1..][0] == INF && INF in rest;
    assert multiset(rest) + multiset{INF} == multiset(before);
    assert s == [INF] + s[1..];
    Cancel(multiset(s[1..]), multiset(rest), multiset{INF});
    forall x | x in rest ensures x == INF || 0 <= x <= LONGEST {
      assert x in before;
    }
    FirstIsSentinel(s[1..], rest);
  }

  /** The first pass of the loop over the array as it was loaded. */
  lemma SentinelsFirst(s: seq<int>, before: seq<int>, boards: seq<int>)
    requires Ordered(Int32, s) && multiset(s) == multiset(before) && Loaded(before, boards)
    requires boards != [] && forall b | b in boards :: 0 <= b <= LONGEST
    ensures |s| == 2 * |boards|
    ensures |boards| >= 2 ==> s[1] == INF
    ensures |boards| == 1 ==> s == [INF, boards[0]]
  {
    var n := |boards|;
    assert |multiset(s)| == |multiset(before)|;
    forall x | x in before ensures x == INF || 0 <= x <= LONGEST {
      var k :| 0 <= k < |before| && before[k] == x;
      assert k < n ==> before[k] == before[..n][k] && x in boards;
    }
    if n >= 2 {
      TwoSentinels(s, before, n);
    } else {
      assert before[1] == INF && before[..1] == boards;
      FirstIsSentinel(s, before);
      assert before == [boards[0], INF] && s == [INF, s[1]];
      Cancel(multiset{s[1]}, multiset{boards[0]}, multiset{INF});
    }
  }

  lemma BothSentinels(s: seq<int>)
    requires multiset(s) == multiset([INF, INF])
    ensures s == [INF, INF]
  {
    assert |multiset(s)| == 2;
    assert s[0] in multiset(s) && s[1] in multiset(s);
  }

  lemma {:induction false} NothingToPay(t: Plan)
    requires forall b | b in Boards(t) :: b == 0
    ensures Weight(t) == 0 && Cost(t) == 0
  {
    if t.Join? {
      assert forall b | b in Boards(t.left) || b in Boards(t.right) :: b in Boards(t);
      NothingToPay(t.left);
      NothingToPay(t.right);
    }
  }

  /** What the program prints as it is written is the least cost only for boards, two or
      more, that have no length at all. */
  lemma LeastAsWritten(boards: seq<int>)
    requires boards != [] && forall b | b in boards :: 0 <= b
    ensures IsLeastCost(multiset(boards), if |boards| == 1 then Int32(INF) else 0) <==>
            |boards| >= 2 && forall b | b in boards :: b == 0
  {
    var m := multiset(boards);
    NoneNegative(boards);
    assert |m| == |boards|;
    if |boards| == 1 {
      SentinelIsNegative();
      OneBoard(m);
    } else if b :| b in boards && b > 0 {
      forall t | Boards(t) == m ensures Cost(t) > 0 {
        hide Boards, Cost, Sum;
        NotOneBoard(t);
        CostAtLeastWeight(t);
        WeightIsSum(t);
        assert b in m;
        SumBounds(m, b);
      }
    } else {
      NothingIsLeast(boards);
    }
  }

  lemma NothingIsLeast(boards: seq<int>)
    requires boards != [] && forall b | b in boards :: b == 0
    ensures IsLeastCost(multiset(boards), 0)
  {
    var m := multiset(boards);
    GreedyPrice(boards);
    assert forall b | b in m :: b in boards;
    hide Boards, Cost, Weight, GreedyCost;
    forall t | Boards(t) == m
      ensures Cost(t) == 0
    {
      NothingToPay(t);
    }
  }

  /** The same program with the entries sorted as `cmp` really sorts them. The low
      word of the sentinel is negative, so the unused entries come first, and the
      loop ends before it has joined anything (or, for one board, joins it to a
      sentinel). */
  method MinCostAsWritten(boards: seq<int>) returns (mincost: int)
    requires boards != [] && forall b | b in boards :: 0 <= b <= LONGEST
    ensures mincost == if |boards| == 1 then Int32(INF) else 0
    ensures IsLeastCost(multiset(boards), mincost) <==> |boards| >= 2 && forall b | b in boards :: b == 0
  {
    hide IsLeastCost, Ordered, Int32;
    LeastAsWritten(boards);
    SmallInts();
    assert boards[0] in boards;
    var n := |boards|;
    var w, p := Load(boards);
    ghost var loaded := w[..];
    mincost := 0;
    while true
      invariant w.Length == 2 * n
      invariant (p == n && mincost == 0 && w[..] == loaded) ||
                (p == 2 && n == 1 && mincost == Int32(INF) && w[..] == [INF, INF])
      decreases 2 - (p - n)
    {
      assert w[..] == w[..2 * n];
      Qsort(Int32, w, 2 * n);
      ghost var s := w[..];
      assert s == w[..2 * n];
      if p == n {
        SentinelsFirst(s, loaded, boards);
      } else {
        BothSentinels(s);
      }
      if w[1] == INF {
        break;
      }
      w[p] := w[0] + w[1];
      w[1] := INF;
      w[0] := w[1];
      mincost := Int32(mincost + w[p]);
      p := p + 1;
    }
  }

  lemma SmallInts()
    ensures Int32(0 + INF) == Int32(INF)
  {
  }
}
