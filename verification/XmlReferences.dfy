/** What every reference that begins with an ampersand is read as: a character given by
    number, in decimal or hexadecimal digits, a named one, or none. */
module XmlReferences {
  import opened Basics
  import opened XmlText
  import opened XmlTextProofs

  const LOWER_DIGITS := "0123456789abcdef"
  const UPPER_DIGITS := "0123456789ABCDEF"

  /** `c` is the digit `n`. */
  predicate Stands(c: char, n: nat, base: nat)
    requires base <= 16
  {
    n < base && (c == LOWER_DIGITS[n] || c == UPPER_DIGITS[n])
  }

  ghost predicate IsDigit(c: char, base: nat)
    requires base <= 16
  {
    exists n :: Stands(c, n, base)
  }

  ghost function Worth(c: char, base: nat): (n: nat)
    requires base <= 16 && IsDigit(c, base)
    ensures Stands(c, n, base)
  {
    var n :| Stands(c, n, base);
    n
  }

  ghost predicate AllDigits(d: string, base: nat)
    requires base <= 16
  {
    forall i | 0 <= i < |d| :: IsDigit(d[i], base)
  }

  /** A number with one digit more behind it. */
  function Appended(v: nat, base: nat, n: nat): nat {
    v * base + n
  }

  /** The number that digits stand for, the first the most significant. */
  ghost function Number(d: string, base: nat): nat
    requires base <= 16 && AllDigits(d, base)
  {
    if d == "" then 0 else Appended(Number(d[..|d| - 1], base), base, Worth(d[|d| - 1], base))
  }

  /** The digits as the reader knows them. */
  lemma DigitIsWorth(c: char, base: nat)
    requires base == 10 || base == 16
    ensures IsDigit(c, base) <==> Digit(c, base) >= 0
    ensures IsDigit(c, base) ==> Digit(c, base) == Worth(c, base)
  {
    var n := Digit(c, base);
    if n >= 0 {
      DigitStands(c, base);
    }
    if IsDigit(c, base) {
      StandsForDigit(c, Worth(c, base), base);
    }
  }

  lemma DigitStands(c: char, base: nat)
    requires (base == 10 || base == 16) && Digit(c, base) >= 0
    ensures Stands(c, Digit(c, base), base)
  {
  }

  lemma StandsForDigit(c: char, n: nat, base: nat)
    requires (base == 10 || base == 16) && Stands(c, n, base)
    ensures Digit(c, base) == n
  {
  }

  // --------------------------------------------------------------- 32-bit arithmetic

  lemma ModShift(x: int, k: int)
    ensures (x + k * UINT) % UINT == x % UINT
  {
  }

  lemma ModPlus(x: int, y: int)
    ensures (x % UINT + y) % UINT == (x + y) % UINT
  {
    ModShift(x % UINT + y, x / UINT);
    assert x == x / UINT * UINT + x % UINT;
  }

  lemma ModTimes(x: int, y: int)
    ensures (x % UINT * y) % UINT == (x * y) % UINT
  {
    var q, r := x / UINT, x % UINT;
    assert x == q * UINT + r;
    assert x * y == r * y + (q * y) * UINT by {
      assert (q * UINT + r) * y == q * UINT * y + r * y;
      assert q * UINT * y == q * y * UINT;
    }
    ModShift(r * y, q * y);
  }

  /** `mult` times `v` on top of `ucs`, as far as 32 bits hold it. */
  function OnTop(ucs: int, mult: int, v: int): (x: int)
    ensures 0 <= x < UINT
  {
    (ucs + mult * v) % UINT
  }

  /** One digit more to the left. */
  lemma OneDigitMore(ucs: int, mult: int, n: int, base: int, v: int)
    ensures OnTop(OnTop(ucs, mult, n), (mult * base) % UINT, v) == OnTop(ucs, mult, v * base + n)
  {
    var a, b := ucs + mult * n, mult * base;
    calc {
      (a % UINT + b % UINT * v) % UINT;
      { ModPlus(a, b % UINT * v); }
      (a + b % UINT * v) % UINT;
      { ModPlus(b % UINT * v, a); }
      ((b % UINT * v) % UINT + a) % UINT;
      { ModTimes(b, v); }
      ((b * v) % UINT + a) % UINT;
      { ModPlus(b * v, a); }
      (b * v + a) % UINT;
    }
    Expand(ucs, mult, n, base, v);
  }

  lemma Expand(ucs: int, mult: int, n: int, base: int, v: int)
    ensures mult * base * v + (ucs + mult * n) == ucs + mult * (v * base + n)
  {
    assert mult * base * v == mult * (v * base);
    assert mult * (v * base + n) == mult * (v * base) + mult * n;
  }

  /** Reading the digits `d` backwards from the character `stop` before them. */
  lemma {:induction false} DigitsRead(p: string, start: nat, d: string, stop: char, base: nat, mult: int, ucs: int)
    requires (base == 10 || base == 16) && start + |d| < |p| && p[start] == stop && p[start + 1..start + 1 + |d|] == d
    requires stop !in d && 0 <= ucs < UINT
    ensures Backwards(p, start + |d|, stop, base, mult, ucs) ==
            if AllDigits(d, base) then OnTop(ucs, mult, Number(d, base)) else -1
    decreases |d|
  {
    hide *;
    if d == "" {
      NoDigits(base, mult, ucs);
      BackwardsStep(p, start, stop, base, mult, ucs);
    } else {
      var n := |d| - 1;
      var c := d[n];
      assert p[start + |d|] == p[start + 1..start + 1 + |d|][n] == c;
      assert c in d;
      DigitIsWorth(c, base);
      LastDigit(d, base);
      BackwardsStep(p, start + |d|, stop, base, mult, ucs);
      if IsDigit(c, base) {
        var x := Digit(c, base);
        assert p[start + 1..start + 1 + n] == d[..n];
        DigitsRead(p, start, d[..n], stop, base, (mult * base) % UINT, OnTop(ucs, mult, x));
        if AllDigits(d, base) {
          OneDigitMore(ucs, mult, x, base, Number(d[..n], base));
        }
      }
    }
  }

  lemma NoDigits(base: nat, mult: int, ucs: int)
    requires base <= 16 && 0 <= ucs < UINT
    ensures AllDigits("", base) && Number("", base) == 0 && OnTop(ucs, mult, 0) == ucs
  {
    assert mult * 0 == 0;
  }

  lemma BackwardsStep(p: string, q: nat, stop: char, base: int, mult: int, ucs: int)
    requires q < |p| && exists i | 0 <= i <= q :: p[i] == stop
    ensures p[q] == stop ==> Backwards(p, q, stop, base, mult, ucs) == ucs
    ensures p[q] != stop && Digit(p[q], base) < 0 ==> Backwards(p, q, stop, base, mult, ucs) == -1
    ensures p[q] != stop && Digit(p[q], base) >= 0 ==>
              q > 0 && (exists i | 0 <= i <= q - 1 :: p[i] == stop)
              && Backwards(p, q, stop, base, mult, ucs) ==
                 Backwards(p, q - 1, stop, base, (mult * base) % UINT, OnTop(ucs, mult, Digit(p[q], base)))
  {
    hide Digit;
  }

  lemma LastDigit(d: string, base: nat)
    requires base <= 16 && d != ""
    ensures AllDigits(d, base) <==> AllDigits(d[..|d| - 1], base) && IsDigit(d[|d| - 1], base)
    ensures AllDigits(d, base) ==>
              Number(d, base) == Number(d[..|d| - 1], base) * base + Worth(d[|d| - 1], base)
  {
    hide IsDigit, Worth;
    assert d == d[..|d| - 1] + [d[|d| - 1]];
  }

  // ----------------------------------------------------------------------- references

  /** What stands behind the last `stop`, all of it if there is none. */
  function Behind(d: string, stop: char): (t: string)
    ensures |t| <= |d| && t == d[|d| - |t|..] && stop !in t
    ensures |t| < |d| ==> d[|d| - |t| - 1] == stop
  {
    if d == "" || d[|d| - 1] == stop then ""
    else
      var t := Behind(d[..|d| - 1], stop);
      assert d == d[..|d| - 1] + [d[|d| - 1]];
      t + [d[|d| - 1]]
  }

  /** The character with the number that `d` stands for; none if there is anything but
      digits behind the last `stop`. */
  ghost function Meant(d: string, stop: char, base: nat, rest: string): (Ptr, string)
    requires base <= 16
  {
    if AllDigits(Behind(d, stop), base) then (At(rest), [(Number(Behind(d, stop), base) % 256) as char])
    else (Null, "")
  }

  lemma Mod32(x: nat)
    ensures x % UINT % 256 == x % 256
  {
    var q, r := x / UINT, x % UINT;
    assert x == q * UINT + r;
    assert x == 256 * (q * 0x100_0000) + r;
    Mod256(q * 0x100_0000, r);
  }

  lemma Mod256(k: int, r: int)
    ensures (256 * k + r) % 256 == r % 256
  {
  }

  /** A number from `from` on in `p`, up to its semicolon. */
  lemma NumberedReads(p: string, from: nat, d: string, rest: string, stop: char, base: nat)
    requires (base == 10 || base == 16) && ';' !in d && from > 0
    requires |p| == from + |d| + 1 + |rest| && p[from - 1] == stop && p[from..from + |d|] == d
    requires p[from + |d|] == ';' && p[from + |d| + 1..] == rest
    ensures IndexOf(p, ';', from) == from + |d|
    ensures Numbered(p, from + |d|, stop, base) == Meant(d, stop, base, rest)
  {
    hide *;
    var t := Behind(d, stop);
    var semi := from + |d|;
    var start := semi - 1 - |t|;
    forall j | from <= j < semi
      ensures p[j] != ';'
    {
      assert p[j] == p[from..semi][j - from] && d[j - from] in d;
    }
    FirstSemicolon(p, from, semi);
    if |t| < |d| {
      assert p[start] == p[from..semi][|d| - |t| - 1];
    }
    assert p[start] == stop;
    assert p[start + 1..semi] == p[from..semi][|d| - |t|..];
    OneTimes(0);
    DigitsRead(p, start, t, stop, base, 1, 0);
    NumberedIs(p, semi, stop, base);
    if AllDigits(t, base) {
      OneTimes(Number(t, base));
      Mod32(Number(t, base));
    }
    MeantIs(d, stop, base, rest);
  }

  lemma OneTimes(x: nat)
    ensures OnTop(0, 1, x) == x % UINT && 0 < UINT
  {
  }

  lemma NumberedIs(p: string, semi: nat, stop: char, base: int)
    requires 0 < semi < |p| && exists i | 0 <= i < semi :: p[i] == stop
    ensures exists i | 0 <= i <= semi - 1 :: p[i] == stop
    ensures var ucs := Backwards(p, semi - 1, stop, base, 1, 0);
            Numbered(p, semi, stop, base) == if ucs < 0 then (Null, "") else (At(p[semi + 1..]), [(ucs % 256) as char])
  {
    hide Backwards;
  }

  lemma MeantIs(d: string, stop: char, base: nat, rest: string)
    requires base <= 16
    ensures var t := Behind(d, stop);
            Meant(d, stop, base, rest) ==
            if AllDigits(t, base) then (At(rest), [(Number(t, base) % 256) as char]) else (Null, "")
  {
    hide AllDigits, Number, Behind;
  }

  /** A reference in decimal digits: the character with that number, however many digits
      there are; anything else behind the last "#" and before the semicolon makes it fail. */
  lemma DecimalReference(d: string, rest: string)
    requires ';' !in d && (d != "" ==> d[0] != 'x')
    ensures GetEntity("&#" + d + ";" + rest) == Meant(d, '#', 10, rest)
  {
    var p := "&#" + d + ";" + rest;
    assert p == "&#" + (d + (";" + rest));
    assert p[0] == '&' && p[1] == '#' && p[2] == (d + (";" + rest))[0];
    NumberedReads(p, 2, d, rest, '#', 10);
    hide Numbered, IndexOf, Meant;
  }

  /** Likewise in hexadecimal digits of either case. */
  lemma HexadecimalReference(d: string, rest: string)
    requires ';' !in d
    ensures GetEntity("&#x" + d + ";" + rest) == Meant(d, 'x', 16, rest)
  {
    var p := "&#x" + d + ";" + rest;
    assert p == "&#x" + (d + (";" + rest));
    assert p[0] == '&' && p[1] == '#' && p[2] == 'x' && |p| > 3;
    NumberedReads(p, 3, d, rest, 'x', 16);
    hide Numbered, IndexOf, Meant;
  }

  /** A numbered reference without a semicolon fails. */
  lemma OpenReference(d: string)
    requires ';' !in d && d != ""
    ensures GetEntity("&#" + d) == (Null, "")
  {
    var p := "&#" + d;
    assert p[0] == '&' && p[1] == '#' && p[2] == d[0];
    forall j | 2 <= j < |p|
      ensures p[j] != ';'
    {
      assert p[j] == d[j - 2] && d[j - 2] in d;
    }
    FirstSemicolon(p, 2, |p|);
    if |p| > 3 {
      FirstSemicolon(p, 3, |p|);
    }
    hide IndexOf;
  }

  /** Of an ampersand that begins neither a number nor one of the five names nothing is
      kept, and reading goes on behind it. */
  lemma UnknownReference(rest: string)
    requires !(|rest| > 1 && rest[0] == '#')
    requires !("amp;" <= rest) && !("lt;" <= rest) && !("gt;" <= rest) && !("quot;" <= rest) && !("apos;" <= rest)
    ensures GetEntity("&" + rest) == (At(rest), "")
  {
    var p := "&" + rest;
    assert p[0] == '&' && p[1..] == rest;
    forall k | 0 <= k < 5
      ensures !(ENTITIES[k].0 <= p)
    {
      var name := ENTITIES[k].0;
      if name <= p {
        assert name[1..] <= p[1..];
        NameOfEntity(k);
      }
    }
    NoneNamed(p, 0);
    hide Named;
  }

  lemma NameOfEntity(k: nat)
    requires k < 5
    ensures ENTITIES[k].0[1..] == ["amp;", "lt;", "gt;", "quot;", "apos;"][k]
    ensures ENTITIES[k].1 == ['&', '<', '>', '\"', '\''][k]
  {
  }

  lemma {:induction false} NoneNamed(p: string, i: nat)
    requires p != "" && i <= 5 && forall k | i <= k < 5 :: !(ENTITIES[k].0 <= p)
    ensures Named(p, i) == (At(p[1..]), "")
    decreases 5 - i
  {
    if i < 5 {
      NoneNamed(p, i + 1);
    }
  }

  /** The five names. */
  lemma NamedReference(rest: string)
    ensures GetEntity("&amp;" + rest) == (At(rest), "&")
    ensures GetEntity("&lt;" + rest) == (At(rest), "<")
    ensures GetEntity("&gt;" + rest) == (At(rest), ">")
    ensures GetEntity("&quot;" + rest) == (At(rest), "\"")
    ensures GetEntity("&apos;" + rest) == (At(rest), "'")
  {
    NamedDecodes(0, rest);
    NamedDecodes(1, rest);
    NamedDecodes(2, rest);
    NamedDecodes(3, rest);
    NamedDecodes(4, rest);
    hide GetEntity;
  }
}
