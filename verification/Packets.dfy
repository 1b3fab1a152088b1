/** Shipping square products of sizes 1x1 to 6x6 (all of the same height) in as
    few 6x6 parcels as possible, by filling greedily from the largest size down. */
module Packets {

  /** How many products of each size: the contents of one parcel, or a whole order. */
  datatype Load = Load(n1: nat, n2: nat, n3: nat, n4: nat, n5: nat, n6: nat) {
    function Plus(that: Load): Load {
      Load(n1 + that.n1, n2 + that.n2, n3 + that.n3, n4 + that.n4, n5 + that.n5, n6 + that.n6)
    }
  }

  const EMPTY := Load(0, 0, 0, 0, 0, 0)

  /** How many 2x2 products fit beside `k` products of size 3x3. */
  function TwosBeside(k: nat): nat
    requires k <= 4
  {
    match k
    case 0 => 9
    case 1 => 5
    case 2 => 3
    case 3 => 1
    case 4 => 0
  }

  /** What fits in one parcel. */
  predicate Fits(b: Load) {
    if b.n6 > 0 then b == EMPTY.(n6 := 1)
    else if b.n5 > 0 then b == EMPTY.(n5 := 1, n1 := b.n1) && b.n1 <= 11
    else if b.n4 > 0 then
      b == EMPTY.(n4 := 1, n2 := b.n2, n1 := b.n1) && b.n2 <= 5 && b.n1 <= 20 - 4 * b.n2
    else
      b.n3 <= 4 && b.n2 <= TwosBeside(b.n3) && b.n1 <= 36 - 9 * b.n3 - 4 * b.n2
  }

  function Total(parcels: seq<Load>): Load {
    if parcels == [] then EMPTY else parcels[0].Plus(Total(parcels[1..]))
  }

  /** These parcels ship exactly this order. */
  ghost predicate Ships(parcels: seq<Load>, order: Load) {
    && Total(parcels) == order
    && forall i | 0 <= i < |parcels| :: Fits(parcels[i])
  }

  ghost predicate IsFewest(order: Load, count: int) {
    && (exists parcels :: Ships(parcels, order) && |parcels| == count)
    && (forall parcels | Ships(parcels, order) :: count <= |parcels|)
  }

  /** The 2x2 places that `t` products of size 3x3 cost when packed four to a parcel. */
  function Lost(t: nat): nat {
    9 * (t / 4) + (if t % 4 == 0 then 0 else 9 - TwosBeside(t % 4))
  }

  /** Four to a parcel costs least: spreading 3x3 products out never saves 2x2 places. */
  lemma LostIsSubadditive(k: nat, t: nat)
    requires k <= 4
    ensures Lost(k + t) <= (9 - TwosBeside(k)) + Lost(t)
  {
    var q, r := t / 4, t % 4;
    assert t == 4 * q + r;
    if k + r < 4 {
      assert (k + t) / 4 == q && (k + t) % 4 == k + r;
    } else {
      assert (k + t) / 4 == q + 1 && (k + t) % 4 == k + r - 4;
    }
  }

  lemma LostBounds(t: nat)
    ensures 9 * t <= 4 * Lost(t)
    ensures forall f: nat | t <= 4 * f :: Lost(t) <= 9 * f
  {
    var q, r := t / 4, t % 4;
    assert t == 4 * q + r;
  }

  lemma LostStep(t: nat)
    ensures t >= 4 ==> Lost(t) == 9 + Lost(t - 4)
    ensures t < 4 ==> Lost(t) == 9 - TwosBeside(t)
  {
    if t >= 4 {
      assert (t - 4) / 4 == t / 4 - 1 && (t - 4) % 4 == t % 4;
    }
  }

  /** Whether `free` parcels, besides one for each 6x6, 5x5 and 4x4 product, are enough. */
  predicate Enough(order: Load, free: int) {
    && order.n3 <= 4 * free
    && order.n2 <= 5 * order.n4 + 9 * free - Lost(order.n3)
    && order.n1 + 4 * order.n2 + 9 * order.n3 <= 11 * order.n5 + 20 * order.n4 + 36 * free
  }

  function Big(order: Load): nat {
    order.n6 + order.n5 + order.n4
  }

  lemma OneMoreBig(b: Load, rest: Load, free: int)
    requires Fits(b) && Enough(rest, free) && Big(b) > 0
    ensures Big(b) == 1
    ensures Enough(b.Plus(rest), free)
  {
    hide Lost, TwosBeside;
    assert b.Plus(rest).n3 == rest.n3;
  }

  lemma FreeParcel(b: Load)
    requires Fits(b) && Big(b) == 0
    ensures b.n4 == b.n5 == b.n6 == 0 && b.n3 <= 4 && b.n2 <= TwosBeside(b.n3)
    ensures b.n1 + 4 * b.n2 + 9 * b.n3 <= 36
  {
    hide TwosBeside;
  }

  lemma OneMoreFree(b: Load, rest: Load, free: int)
    requires Fits(b) && Enough(rest, free) && Big(b) == 0
    ensures Enough(b.Plus(rest), free + 1)
  {
    hide *;
    FreeParcel(b);
    LostIsSubadditive(b.n3, rest.n3);
    EnoughMeans(rest, free);
    EnoughMeans(b.Plus(rest), free + 1);
    PlusIs(b, rest);
  }

  lemma PlusIs(b: Load, c: Load)
    ensures b.Plus(c) == Load(b.n1 + c.n1, b.n2 + c.n2, b.n3 + c.n3, b.n4 + c.n4, b.n5 + c.n5, b.n6 + c.n6)
  {
  }

  lemma EnoughMeans(order: Load, free: int)
    ensures Enough(order, free) <==>
            && order.n3 <= 4 * free
            && order.n2 <= 5 * order.n4 + 9 * free - Lost(order.n3)
            && order.n1 + 4 * order.n2 + 9 * order.n3 <= 11 * order.n5 + 20 * order.n4 + 36 * free
  {
    hide Lost;
  }

  /** No packing can do with less. */
  lemma {:induction false} EveryPackingIsEnough(parcels: seq<Load>, order: Load)
    requires Ships(parcels, order)
    ensures |parcels| >= Big(order) && Enough(order, |parcels| - Big(order))
  {
    hide Fits, Enough;
    if parcels == [] {
      EmptyIsEnough();
    } else {
      var b, rest := parcels[0], Total(parcels[1..]);
      EveryPackingIsEnough(parcels[1..], rest);
      var free := |parcels| - 1 - Big(rest);
      if Big(b) > 0 {
        OneMoreBig(b, rest, free);
      } else {
        OneMoreFree(b, rest, free);
      }
    }
  }

  lemma EmptyIsEnough()
    ensures Enough(EMPTY, 0)
  {
  }

  function Min(a: nat, b: nat): nat {
    if a <= b then a else b
  }

  /** The fullest parcel that can be taken from the order, largest product first. */
  function FirstParcel(order: Load): Load {
    if order.n6 > 0 then EMPTY.(n6 := 1)
    else if order.n5 > 0 then EMPTY.(n5 := 1, n1 := Min(11, order.n1))
    else if order.n4 > 0 then
      var twos := Min(5, order.n2);
      EMPTY.(n4 := 1, n2 := twos, n1 := Min(20 - 4 * twos, order.n1))
    else
      var threes := Min(4, order.n3);
      var twos := Min(TwosBeside(threes), order.n2);
      assert 9 * threes + 4 * twos <= 36;
      EMPTY.(n3 := threes, n2 := twos, n1 := Min(36 - 9 * threes - 4 * twos, order.n1))
  }

  function Minus(order: Load, b: Load): Load
    requires b.n1 <= order.n1 && b.n2 <= order.n2 && b.n3 <= order.n3
    requires b.n4 <= order.n4 && b.n5 <= order.n5 && b.n6 <= order.n6
  {
    Load(order.n1 - b.n1, order.n2 - b.n2, order.n3 - b.n3, order.n4 - b.n4, order.n5 - b.n5, order.n6 - b.n6)
  }

  lemma AfterBigParcel(order: Load, free: nat) returns (rest: Load)
    requires Enough(order, free) && Big(order) > 0
    ensures Fits(FirstParcel(order)) && FirstParcel(order).Plus(rest) == order
    ensures Big(rest) == Big(order) - 1 && Enough(rest, free)
  {
    hide Lost;
    rest := Minus(order, FirstParcel(order));
    LostBounds(order.n3);
    assert order.n3 <= 4 * free && Lost(order.n3) <= 9 * free;
  }

  lemma AfterFreeParcel(order: Load, free: nat) returns (rest: Load)
    requires Enough(order, free) && Big(order) == 0 && free > 0
    ensures Fits(FirstParcel(order)) && FirstParcel(order).Plus(rest) == order
    ensures Big(rest) == 0 && Enough(rest, free - 1)
  {
    hide Lost;
    rest := Minus(order, FirstParcel(order));
    LostStep(order.n3);
    LostBounds(rest.n3);
    LostStep(0);
  }

  lemma NothingToPack(order: Load)
    requires Enough(order, 0) && Big(order) == 0
    ensures Ships([], order)
  {
  }

  lemma PutFirst(b: Load, others: seq<Load>, rest: Load, order: Load)
    requires Fits(b) && Ships(others, rest) && b.Plus(rest) == order
    ensures Ships([b] + others, order)
  {
    hide Fits;
    assert ([b] + others)[1..] == others;
  }

  /** And this much does: packing greedily uses exactly that many parcels. */
  lemma {:induction false} EnoughCanBePacked(order: Load, free: nat) returns (parcels: seq<Load>)
    requires Enough(order, free)
    ensures Ships(parcels, order) && |parcels| == Big(order) + free
    decreases Big(order) + free
  {
    hide *;
    var b := FirstParcel(order);
    if Big(order) > 0 {
      var rest := AfterBigParcel(order, free);
      var others := EnoughCanBePacked(rest, free);
      PutFirst(b, others, rest, order);
      parcels := [b] + others;
    } else if free > 0 {
      var rest := AfterFreeParcel(order, free);
      var others := EnoughCanBePacked(rest, free - 1);
      PutFirst(b, others, rest, order);
      parcels := [b] + others;
    } else {
      NothingToPack(order);
      parcels := [];
    }
  }

  // ------------------------------------------------------------ the greedy count

  function Monus(a: int, b: int): nat {
    if a >= b then a - b else 0
  }

  function Parts(a: nat, size: nat): nat
    requires size > 0
  {
    a / size + if a % size == 0 then 0 else 1
  }

  /** What is left of an order once the 6x6 and 5x5 parcels are filled up with 1x1s, */
  function AfterFives(o: Load): Load {
    o.(n1 := Monus(o.n1, 11 * o.n5), n5 := 0, n6 := 0)
  }

  /** once the 4x4 parcels are filled up, */
  function AfterFours(o: Load): Load {
    o.(n1 := Monus(o.n1, 4 * Monus(5 * o.n4, o.n2)), n2 := Monus(o.n2, 5 * o.n4), n4 := 0)
  }

  /** once the 3x3 parcels are filled up, */
  function AfterThrees(o: Load): Load {
    if o.n3 % 4 == 0 then o.(n3 := 0)
    else
      var twos := Min(TwosBeside(o.n3 % 4), o.n2);
      o.(n1 := Monus(o.n1, 36 - 9 * (o.n3 % 4) - 4 * twos), n2 := o.n2 - twos, n3 := 0)
  }

  /** and once the 2x2 parcels are filled up. */
  function AfterTwos(o: Load): Load {
    if o.n2 % 9 == 0 then o.(n2 := 0)
    else o.(n1 := Monus(o.n1, 36 - 4 * (o.n2 % 9)), n2 := 0)
  }

  lemma FivesKeepNeed(o: Load, free: int)
    ensures Enough(o, free) <==> Enough(AfterFives(o), free)
  {
    hide Lost;
    LostBounds(o.n3);
  }

  lemma FoursKeepNeed(o: Load, free: int)
    requires o.n5 == 0
    ensures Enough(o, free) <==> Enough(AfterFours(o), free)
  {
    hide Lost;
    LostBounds(o.n3);
    if free >= 0 && o.n3 <= 4 * free {
      assert Lost(o.n3) <= 9 * free;
    }
  }

  lemma ThreesNeed(o: Load, free: int)
    requires o.n5 == o.n4 == 0
    ensures Enough(o, free) <==> Parts(o.n3, 4) <= free && Enough(AfterThrees(o), free - Parts(o.n3, 4))
  {
    var q, r := o.n3 / 4, o.n3 % 4;
    assert o.n3 == 4 * q + r;
    assert Lost(0) == 0;
    assert o.n3 <= 4 * free <==> Parts(o.n3, 4) <= free;
  }

  lemma TwosNeed(o: Load, free: int)
    requires o.n5 == o.n4 == o.n3 == 0
    ensures Enough(o, free) <==> Parts(o.n2, 9) <= free && Enough(AfterTwos(o), free - Parts(o.n2, 9))
  {
    var q, r := o.n2 / 9, o.n2 % 9;
    assert o.n2 == 9 * q + r;
    assert Lost(0) == 0;
  }

  lemma OnesNeed(o: Load, free: int)
    requires o.n5 == o.n4 == o.n3 == o.n2 == 0
    ensures Enough(o, free) <==> Parts(o.n1, 36) <= free
  {
    var q, r := o.n1 / 36, o.n1 % 36;
    assert o.n1 == 36 * q + r;
    assert Lost(0) == 0;
  }

  /** The greedy count is what the order needs, no less and no more. */
  lemma GreedyIsFewest(order: Load)
    ensures var two := AfterFours(AfterFives(order));
            var three := AfterThrees(two);
            IsFewest(order, Big(order) + Parts(two.n3, 4) + Parts(three.n2, 9) + Parts(AfterTwos(three).n1, 36))
  {
    hide Enough, Parts, IsFewest;
    var one := AfterFives(order);
    var two := AfterFours(one);
    var three := AfterThrees(two);
    var four := AfterTwos(three);
    var need := Parts(two.n3, 4) + Parts(three.n2, 9) + Parts(four.n1, 36);
    forall free: int
      ensures Enough(order, free) <==> need <= free
    {
      FivesKeepNeed(order, free);
      FoursKeepNeed(one, free);
      ThreesNeed(two, free);
      TwosNeed(three, free - Parts(two.n3, 4));
      OnesNeed(four, free - Parts(two.n3, 4) - Parts(three.n2, 9));
    }
    FewestFromEnough(order, Big(order) + need);
  }

  lemma FewestFromEnough(order: Load, count: int)
    requires count >= Big(order) && Enough(order, count - Big(order))
    requires forall free: nat | Enough(order, free) :: count <= Big(order) + free
    ensures IsFewest(order, count)
  {
    hide Enough;
    var parcels := EnoughCanBePacked(order, count - Big(order));
    forall others | Ships(others, order) ensures count <= |others| {
      EveryPackingIsEnough(others, order);
    }
  }

  /** The numbers read into the array. */
  ghost predicate Holds(s: array<int>, o: Load)
    reads s
  {
    s.Length == 10 && s[0] == o.n1 && s[1] == o.n2 && s[2] == o.n3 && s[3] == o.n4 && s[4] == o.n5 && s[5] == o.n6
  }

  // One round of `main`, size by size: each part takes from `s` what fits beside the
  // products of its size and adds the parcels it opens to `out`.

  method FillFives(s: array<int>, ghost o: Load)
    requires Holds(s, o)
    modifies s
    ensures Holds(s, AfterFives(o).(n5 := o.n5, n6 := o.n6))
  {
    if s[0] >= 11 * s[4] {
      s[0] := s[0] - 11 * s[4];
    } else {
      s[0] := 0;
    }
  }

  method FillFours(s: array<int>, ghost o: Load)
    requires Holds(s, o)
    modifies s
    ensures Holds(s, AfterFours(o).(n4 := o.n4))
  {
    if s[1] >= 5 * s[3] {
      s[1] := s[1] - 5 * s[3];
    } else {
      var temp1 := (5 * s[3] - s[1]) * 4;
      s[1] := 0;
      if s[0] >= temp1 {
        s[0] := s[0] - temp1;
      } else {
        s[0] := 0;
      }
    }
  }

  method ShipThrees(s: array<int>, ghost o: Load, sofar: int) returns (out: int)
    requires Holds(s, o)
    modifies s
    ensures Holds(s, AfterThrees(o).(n3 := o.n3))
    ensures out == sofar + Parts(o.n3, 4)
  {
    out := sofar + s[2] / 4;
    if s[2] % 4 != 0 {
      out := out + 1;
      var temp2 := 36 - (s[2] % 4) * 9;
      if s[2] % 4 == 1 {
        if s[1] >= 5 {
          s[1] := s[1] - 5;
          temp2 := temp2 - 20;
        } else {
          temp2 := temp2 - s[1] * 4;
          s[1] := 0;
        }
      } else if s[2] % 4 == 2 {
        if s[1] >= 3 {
          s[1] := s[1] - 3;
          temp2 := temp2 - 12;
        } else {
          temp2 := temp2 - s[1] * 4;
          s[1] := 0;
        }
      } else if s[2] % 4 == 3 {
        if s[1] >= 1 {
          s[1] := s[1] - 1;
          temp2 := temp2 - 4;
        }
      }
      if s[0] >= temp2 {
        s[0] := s[0] - temp2;
      } else {
        s[0] := 0;
      }
    }
  }

  method ShipTwos(s: array<int>, ghost o: Load, sofar: int) returns (out: int)
    requires Holds(s, o)
    modifies s
    ensures Holds(s, AfterTwos(o).(n2 := o.n2))
    ensures out == sofar + Parts(o.n2, 9)
  {
    out := sofar;
    if s[1] != 0 {
      out := out + s[1] / 9;
      if s[1] % 9 != 0 {
        out := out + 1;
        var temp3 := 36 - (s[1] % 9) * 4;
        if s[0] >= temp3 {
          s[0] := s[0] - temp3;
        } else {
          s[0] := 0;
        }
      }
    }
  }

  method ShipOnes(s: array<int>, ghost o: Load, sofar: int) returns (out: int)
    requires Holds(s, o)
    ensures out == sofar + Parts(o.n1, 36)
  {
    out := sofar;
    if s[0] != 0 {
      out := out + s[0] / 36;
      if s[0] % 36 != 0 {
        out := out + 1;
      }
    }
  }

  method Parcels(s: array<int>, ghost order: Load) returns (out: int)
    requires Holds(s, order)
    modifies s
    ensures IsFewest(order, out)
  {
    hide IsFewest, Parts;
    out := s[5] + s[4] + s[3];
    ghost var one := AfterFives(order).(n5 := order.n5, n6 := order.n6);
    ghost var two := AfterFours(one).(n4 := one.n4);
    ghost var three := AfterThrees(two).(n3 := two.n3);
    FillFives(s, order);
    FillFours(s, one);
    out := ShipThrees(s, two, out);
    out := ShipTwos(s, three, out);
    out := ShipOnes(s, AfterTwos(three).(n2 := three.n2), out);
    GreedyIsFewest(order);
  }
}
