/** The C library's `qsort`, known to its callers only by what it promises:
    the first `n` entries come back permuted and ordered by the caller's key.
    A comparison `f(*a) - f(*b)` is represented by the key `f`. */
module CLibrary {

  /** A value stored in, or read as, a 32-bit int. */
  function Int32(x: int): int {
    (x + 0x8000_0000) % 0x1_0000_0000 - 0x8000_0000
  }

  ghost predicate Ordered(key: int -> int, s: seq<int>) {
    forall i, j | 0 <= i < j < |s| :: key(s[i]) <= key(s[j])
  }

  function Insert(key: int -> int, x: int, s: seq<int>): (r: seq<int>)
    ensures |r| == |s| + 1
    ensures r[0] == x || (s != [] && r[0] == s[0])
  {
    if s == [] || key(x) <= key(s[0]) then [x] + s else [s[0]] + Insert(key, x, s[1..])
  }

  lemma {:induction false} InsertOrders(key: int -> int, x: int, s: seq<int>)
    requires Ordered(key, s)
    ensures Ordered(key, Insert(key, x, s))
  {
    if s != [] && key(x) > key(s[0]) {
      InsertOrders(key, x, s[1..]);
      var t := Insert(key, x, s[1..]);
      assert key(s[0]) <= key(t[0]);
    }
  }

  lemma {:induction false} InsertPermutes(key: int -> int, x: int, s: seq<int>)
    ensures multiset(Insert(key, x, s)) == multiset(s) + multiset{x}
  {
    if s != [] && key(x) > key(s[0]) {
      InsertPermutes(key, x, s[1..]);
      assert s == [s[0]] + s[1..];
    }
  }

  function Arrange(key: int -> int, s: seq<int>): (r: seq<int>)
    ensures |r| == |s|
    ensures Ordered(key, r)
    ensures multiset(r) == multiset(s)
  {
    if s == [] then []
    else
      assert s == [s[0]] + s[1..];
      var t := Arrange(key, s[1..]);
      InsertOrders(key, s[0], t);
      InsertPermutes(key, s[0], t);
      Insert(key, s[0], t)
  }

  method Qsort(key: int -> int, a: array<int>, n: nat)
    requires n <= a.Length
    modifies a
    ensures Ordered(key, a[..n])
    ensures multiset(a[..n]) == multiset(old(a[..n]))
    ensures a[n..] == old(a[n..])
  {
    var r := Arrange(key, a[..n]);
    forall i | 0 <= i < n {
      a[i] := r[i];
    }
    assert a[..n] == r;
  }
}
