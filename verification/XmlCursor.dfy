/** `TiXmlParsingData`: the row and column of the parser's position, kept up to date by
    `Stamp` as parsing moves on. One-byte encoding. */
module XmlCursor {
  import opened Basics

  /** A position in the text and its row and column, all counted from 0. */
  datatype Cursor = Cursor(row: nat, col: nat, at: nat)

  /** The character at `i`, NUL at the end of the text. */
  function CharAt(s: string, i: nat): char {
    if i < |s| then s[i] else 0 as char
  }

  /** Over one character, or over a pair of line break characters. */
  function Advance(s: string, c: Cursor, tabsize: int): (r: Cursor)
    requires c.at < |s| && tabsize > 0
    ensures c.at < r.at <= |s|
  {
    var ch := s[c.at];
    if ch == '\r' then Cursor(c.row + 1, 0, if CharAt(s, c.at + 1) == '\n' then c.at + 2 else c.at + 1)
    else if ch == '\n' then Cursor(c.row + 1, 0, if CharAt(s, c.at + 1) == '\r' then c.at + 2 else c.at + 1)
    else if ch == '\t' then Cursor(c.row, NextStop(c.col, tabsize), c.at + 1)
    else Cursor(c.row, c.col + 1, c.at + 1)
  }

  function NextStop(col: nat, tabsize: int): nat
    requires tabsize > 0
  {
    (col / tabsize + 1) * tabsize
  }

  /** On to the first position at or after `now`; none if a NUL comes before it. */
  function Moved(s: string, c: Cursor, now: nat, tabsize: int): (r: Option<Cursor>)
    requires now <= |s| && tabsize > 0
    ensures r.Some? && c.at <= |s| ==> c.at <= r.value.at <= |s| && now <= r.value.at
    decreases now - c.at
  {
    if c.at >= now then Some(c)
    else if s[c.at] as int == 0 then None
    else Moved(s, Advance(s, c, tabsize), now, tabsize)
  }

  /** The cursor a stamp leaves: it does nothing for a tab size below 1, nor past a NUL. */
  function Stamped(s: string, c: Cursor, now: nat, tabsize: int): (r: Cursor)
    requires now <= |s|
    ensures c.at <= |s| ==> r.at <= |s|
  {
    if tabsize < 1 then c
    else match Moved(s, c, now, tabsize)
         case None => c
         case Some(d) => d
  }

  class ParsingData {
    const text: string
    const tabsize: int
    var row: nat
    var col: nat
    var stamp: nat

    ghost predicate Valid()
      reads this
    {
      stamp <= |text|
    }

    function Position(): Cursor
      reads this
    {
      Cursor(row, col, stamp)
    }

    constructor (text: string, tabsize: int, row: nat, col: nat)
      ensures Valid() && this.text == text && this.tabsize == tabsize && Position() == Cursor(row, col, 0)
    {
      this.text, this.tabsize, this.row, this.col, stamp := text, tabsize, row, col, 0;
    }

    method Stamp(now: nat)
      requires Valid() && now <= |text|
      modifies this
      ensures Valid() && Position() == Stamped(text, old(Position()), now, tabsize)
    {
      if tabsize < 1 {
        return;
      }
      var r, c, p := row, col, stamp;
      while p < now
        invariant p <= |text|
        invariant Moved(text, Position(), now, tabsize) == Moved(text, Cursor(r, c, p), now, tabsize)
        decreases now - p
      {
        if text[p] as int == 0 {
          return;
        }
        if text[p] == '\r' {
          r, c, p := r + 1, 0, p + 1;
          if p < |text| && text[p] == '\n' {
            p := p + 1;
          }
        } else if text[p] == '\n' {
          r, c, p := r + 1, 0, p + 1;
          if p < |text| && text[p] == '\r' {
            p := p + 1;
          }
        } else if text[p] == '\t' {
          p := p + 1;
          c := NextStop(c, tabsize);
        } else {
          p, c := p + 1, c + 1;
        }
      }
      row, col, stamp := r, c, p;
    }
  }

  // ------------------------------------------------------------------ path independence

  lemma {:induction false} MovedThrough(s: string, c: Cursor, a: nat, b: nat, tabsize: int)
    requires a <= b <= |s| && tabsize > 0
    ensures Moved(s, c, b, tabsize) ==
            match Moved(s, c, a, tabsize)
            case None => None
            case Some(d) => Moved(s, d, b, tabsize)
    decreases a - c.at
  {
    if c.at < a && s[c.at] as int != 0 {
      MovedThrough(s, Advance(s, c, tabsize), a, b, tabsize);
    }
  }

  /** A position is out of reach exactly if a NUL stands before it. */
  lemma {:induction false} NulStops(s: string, c: Cursor, now: nat, tabsize: int)
    requires now <= |s| && tabsize > 0
    ensures Moved(s, c, now, tabsize).None? <==> exists i :: c.at <= i < now && s[i] as int == 0
    decreases now - c.at
  {
    if c.at < now && s[c.at] as int != 0 {
      var d := Advance(s, c, tabsize);
      NulStops(s, d, now, tabsize);
      assert forall i | c.at <= i < d.at && i < now :: s[i] as int != 0;
    }
  }

  /** Stamping at `a` on the way to `b` makes no difference, even when `a` falls inside a
      pair of line break characters, exactly unless there is a NUL from `a` up to `b` and
      none from the cursor up to `a`: then the first stamp moves the cursor and the second
      is given up, whereas stamping at `b` alone is given up from the start. */
  lemma StampsCompose(s: string, c: Cursor, a: nat, b: nat, tabsize: int)
    requires a <= b <= |s|
    ensures Stamped(s, Stamped(s, c, a, tabsize), b, tabsize) == Stamped(s, c, b, tabsize) <==>
            !(tabsize > 0 && c.at < a && (forall i | c.at <= i < a :: s[i] as int != 0)
              && exists i :: a <= i < b && s[i] as int == 0)
  {
    if tabsize > 0 {
      MovedThrough(s, c, a, b, tabsize);
      NulStops(s, c, a, tabsize);
      NulStops(s, c, b, tabsize);
      if c.at < a {
        assert Moved(s, c, a, tabsize).Some? ==> Moved(s, c, a, tabsize).value.at >= a;
      }
      hide Moved;
    }
  }

  /** Text without NUL is always covered. */
  lemma {:induction false} NoNulMoves(s: string, c: Cursor, now: nat, tabsize: int)
    requires now <= |s| && tabsize > 0 && forall i | 0 <= i < |s| :: s[i] as int != 0
    ensures Moved(s, c, now, tabsize).Some?
    decreases now - c.at
  {
    if c.at < now {
      NoNulMoves(s, Advance(s, c, tabsize), now, tabsize);
    }
  }

  lemma StampsArePathIndependent(s: string, c: Cursor, a: nat, b: nat, tabsize: int)
    requires a <= b <= |s| && forall i | 0 <= i < |s| :: s[i] as int != 0
    ensures Stamped(s, Stamped(s, c, a, tabsize), b, tabsize) == Stamped(s, c, b, tabsize)
  {
    StampsCompose(s, c, a, b, tabsize);
    if tabsize > 0 {
      NoNulMoves(s, c, b, tabsize);
    }
  }

  // ------------------------------------------------------ what the row and column mean

  function LineFeeds(s: string): nat {
    if s == "" then 0 else LineFeeds(s[..|s| - 1]) + if s[|s| - 1] == '\n' then 1 else 0
  }

  /** The characters behind the last line feed. */
  function LastLine(s: string): string {
    if s == "" || s[|s| - 1] == '\n' then "" else LastLine(s[..|s| - 1]) + [s[|s| - 1]]
  }

  predicate PlainText(s: string) {
    forall i | 0 <= i < |s| :: s[i] as int != 0 && s[i] != '\r' && s[i] != '\t'
  }

  /** In text with normalised line ends and without tabs, the row is the number of line
      feeds before the position, and the column the length of the line up to it. */
  lemma {:induction false} CountsLinesAndColumns(s: string, now: nat, tabsize: int)
    requires now <= |s| && tabsize > 0 && PlainText(s)
    ensures Stamped(s, Cursor(0, 0, 0), now, tabsize) == Cursor(LineFeeds(s[..now]), |LastLine(s[..now])|, now)
  {
    if now > 0 {
      CountsLinesAndColumns(s, now - 1, tabsize);
      var before := s[..now - 1];
      assert s[..now][..now - 1] == before;
      var c := Cursor(LineFeeds(before), |LastLine(before)|, now - 1);
      NoNulMoves(s, Cursor(0, 0, 0), now, tabsize);
      NoNulMoves(s, Cursor(0, 0, 0), now - 1, tabsize);
      StampsArePathIndependent(s, Cursor(0, 0, 0), now - 1, now, tabsize);
      assert s[now - 1] as int != 0 && (now < |s| ==> s[now] != '\r');
      assert Moved(s, c, now, tabsize) == Moved(s, Advance(s, c, tabsize), now, tabsize);
    }
  }

  // --------------------------------------------- lines with tabs, and line ends of any kind

  /** A tab stop behind `col`, at most a tab size on. */
  predicate IsStop(col: nat, tabsize: int, stop: nat)
    requires tabsize > 0
  {
    col < stop <= col + tabsize && stop % tabsize == 0
  }

  /** The next tab stop is the only multiple of the tab size there. */
  lemma OneStop(col: nat, tabsize: int, stop: nat)
    requires tabsize > 0
    ensures IsStop(col, tabsize, stop) <==> stop == NextStop(col, tabsize)
  {
    var q := col / tabsize;
    var next := (q + 1) * tabsize;
    assert col == q * tabsize + col % tabsize;
    assert next == q * tabsize + tabsize;
    MultipleOf(q + 1, tabsize);
    if IsStop(col, tabsize, stop) {
      var p := stop / tabsize;
      assert stop == p * tabsize;
      SameMultiple(p, q + 1, tabsize);
    }
  }

  lemma MultipleOf(k: int, n: int)
    requires n > 0
    ensures (k * n) % n == 0
  {
    var x := k * n;
    var q, r := x / n, x % n;
    assert x == q * n + r && (k - q) * n == r;
    if k - q > 0 {
      OnceAtLeast(k - q, n);
    } else if k - q < 0 {
      OnceAtLeast(q - k, n);
    }
  }

  lemma OnceAtLeast(a: int, n: int)
    requires a >= 1 && n > 0
    ensures a * n >= n
  {
    assert a * n == (a - 1) * n + n;
  }

  lemma SameMultiple(p: int, q: int, n: int)
    requires n > 0 && -n < p * n - q * n < n
    ensures p == q
  {
    assert p * n - q * n == (p - q) * n;
    if p > q {
      OnceAtLeast(p - q, n);
    } else if p < q {
      OnceAtLeast(q - p, n);
    }
  }

  /** `to` is the column behind `line` if it begins at the column `from`: every character
      takes one, and a tab moves on to the next stop. */
  ghost predicate Spans(line: string, tabsize: int, from: nat, to: nat)
    requires tabsize > 0
    decreases |line|
  {
    if line == "" then to == from
    else if line[0] == '\t' then exists stop :: IsStop(from, tabsize, stop) && Spans(line[1..], tabsize, stop, to)
    else Spans(line[1..], tabsize, from + 1, to)
  }

  /** A line and the line end behind it. */
  datatype Line = Line(text: string, end: string)

  predicate IsLineEnd(end: string) {
    end == "\r" || end == "\n" || end == "\r\n" || end == "\n\r"
  }

  predicate OneLine(text: string) {
    forall i | 0 <= i < |text| :: text[i] as int != 0 && text[i] != '\r' && text[i] != '\n'
  }

  function Joined(lines: seq<Line>): string {
    if lines == [] then "" else lines[0].text + lines[0].end + Joined(lines[1..])
  }

  /** `end` goes no further in front of `rest`. */
  predicate Whole(end: string, rest: string) {
    (end == "\r" && rest != "" ==> rest[0] != '\n') && (end == "\n" && rest != "" ==> rest[0] != '\r')
  }

  /** The lines are as they are read: two different line break characters in a row are one end. */
  predicate AreLines(lines: seq<Line>, rest: string) {
    lines == [] ||
    (OneLine(lines[0].text) && IsLineEnd(lines[0].end) && Whole(lines[0].end, Joined(lines[1..]) + rest)
     && AreLines(lines[1..], rest))
  }

  /** Over one line, from the column `c.col` on. */
  lemma {:induction false} LineMoves(s: string, c: Cursor, line: string, now: nat, tabsize: int) returns (d: Cursor)
    requires now <= |s| && tabsize > 0 && OneLine(line) && c.at + |line| <= now && s[c.at..c.at + |line|] == line
    ensures Moved(s, c, now, tabsize) == Moved(s, d, now, tabsize)
    ensures d.row == c.row && d.at == c.at + |line| && Spans(line, tabsize, c.col, d.col)
    decreases |line|
  {
    if line == "" {
      d := c;
    } else {
      assert s[c.at] == s[c.at..c.at + |line|][0] == line[0];
      var next := Advance(s, c, tabsize);
      assert s[next.at..next.at + |line[1..]|] == line[1..] by {
        assert s[c.at..c.at + |line|][1..] == s[c.at + 1..c.at + |line|];
      }
      if line[0] == '\t' {
        OneStop(c.col, tabsize, next.col);
      }
      d := LineMoves(s, next, line[1..], now, tabsize);
    }
  }

  /** Over one line end. */
  lemma EndMoves(s: string, c: Cursor, end: string, rest: string, now: nat, tabsize: int)
    requires now <= |s| && tabsize > 0 && IsLineEnd(end) && Whole(end, rest)
    requires c.at + |end| <= now && s[c.at..c.at + |end|] == end && s[c.at + |end|..] == rest
    ensures Moved(s, c, now, tabsize) == Moved(s, Cursor(c.row + 1, 0, c.at + |end|), now, tabsize)
  {
    assert s[c.at] == s[c.at..c.at + |end|][0] == end[0];
    if |end| == 2 {
      assert s[c.at + 1] == s[c.at..c.at + |end|][1] == end[1];
    } else if c.at + 1 < |s| {
      assert s[c.at + 1] == rest[0];
    }
  }

  lemma {:induction false} LinesMove(s: string, c: Cursor, lines: seq<Line>, rest: string, now: nat, tabsize: int)
    requires now <= |s| && tabsize > 0 && AreLines(lines, rest) && c.col == 0
    requires c.at + |Joined(lines)| <= now && s[c.at..] == Joined(lines) + rest
    ensures Moved(s, c, now, tabsize) ==
            Moved(s, Cursor(c.row + |lines|, 0, c.at + |Joined(lines)|), now, tabsize)
    decreases |lines|
  {
    hide Moved, OneLine, IsLineEnd, Whole;
    if lines != [] {
      var text, end, more := lines[0].text, lines[0].end, Joined(lines[1..]) + rest;
      var p := c.at + |text|;
      Pieces(s, c.at, text, end, more);
      assert text + end + Joined(lines[1..]) + rest == text + (end + more);
      var d := LineMoves(s, c, text, now, tabsize);
      EndMoves(s, d, end, more, now, tabsize);
      LinesMove(s, Cursor(c.row + 1, 0, p + |end|), lines[1..], rest, now, tabsize);
    }
  }

  lemma Pieces(s: string, at: nat, text: string, end: string, more: string)
    requires at <= |s| && s[at..] == text + (end + more)
    ensures at + |text| + |end| + |more| == |s| && s[at..at + |text|] == text
    ensures s[at + |text|..at + |text| + |end|] == end && s[at + |text| + |end|..] == more
  {
    var r := s[at..];
    assert s[at..at + |text|] == r[..|text|];
    assert s[at + |text|..] == r[|text|..] == end + more;
    assert s[at + |text|..at + |text| + |end|] == s[at + |text|..][..|end|];
    assert s[at + |text| + |end|..] == s[at + |text|..][|end|..];
  }

  /** Stamped from the beginning, the row is the number of line ends before the position, be
      they CR, LF, CR LF or LF CR, and the column that of the last line, with its tabs moved
      on to the next stop. */
  lemma RowsAndColumns(lines: seq<Line>, last: string, rest: string, tabsize: int)
    requires tabsize > 0 && OneLine(last) && AreLines(lines, last + rest)
    ensures var text := Joined(lines) + last;
            var c := Stamped(text + rest, Cursor(0, 0, 0), |text|, tabsize);
            c.row == |lines| && c.at == |text| && Spans(last, tabsize, 0, c.col)
  {
    hide *;
    var before := Joined(lines);
    var s, now := before + last + rest, |before + last|;
    Regroup3(before, last, rest);
    assert s[0..] == s;
    LinesMove(s, Cursor(0, 0, 0), lines, last + rest, now, tabsize);
    var c := Cursor(|lines|, 0, |before|);
    var d := LineMoves(s, c, last, now, tabsize);
    StampedThere(s, Cursor(0, 0, 0), d, now, tabsize);
  }

  lemma Regroup3(a: string, b: string, c: string)
    ensures a + b + c == a + (b + c) && (a + b + c)[|a|..|a| + |b|] == b
  {
  }

  lemma StampedThere(s: string, c: Cursor, d: Cursor, now: nat, tabsize: int)
    requires now <= |s| && tabsize > 0 && d.at >= now && Moved(s, c, now, tabsize) == Moved(s, d, now, tabsize)
    ensures Stamped(s, c, now, tabsize) == d
  {
  }

  /** Only one column spans a line. */
  lemma {:induction false} SpansOne(line: string, tabsize: int, from: nat, a: nat, b: nat)
    requires tabsize > 0 && Spans(line, tabsize, from, a) && Spans(line, tabsize, from, b)
    ensures a == b
    decreases |line|
  {
    if line != "" {
      if line[0] == '\t' {
        var p :| IsStop(from, tabsize, p) && Spans(line[1..], tabsize, p, a);
        var q :| IsStop(from, tabsize, q) && Spans(line[1..], tabsize, q, b);
        OneStop(from, tabsize, p);
        OneStop(from, tabsize, q);
        SpansOne(line[1..], tabsize, p, a, b);
      } else {
        SpansOne(line[1..], tabsize, from + 1, a, b);
      }
    }
  }

  lemma EndFirst(end: string, lines: seq<Line>, last: string)
    requires IsLineEnd(end) && Whole(end, Joined(lines) + last) && AreLines(lines, last)
    ensures AreLines([Line("", end)] + lines, last) && Joined([Line("", end)] + lines) == end + Joined(lines)
  {
    hide IsLineEnd, Whole;
    assert ([Line("", end)] + lines)[1..] == lines;
    assert "" + end + Joined(lines) == end + Joined(lines);
  }

  lemma CharFirst(c: char, lines: seq<Line>, last: string)
    requires OneLine([c]) && lines != [] && AreLines(lines, last)
    ensures var all := [Line([c] + lines[0].text, lines[0].end)] + lines[1..];
            AreLines(all, last) && Joined(all) == [c] + Joined(lines)
  {
    var text, end, more := lines[0].text, lines[0].end, lines[1..];
    assert OneLine([c] + text) by {
      assert [c][0] == c;
    }
    hide IsLineEnd, Whole, OneLine;
    var all := [Line([c] + text, end)] + more;
    assert all[1..] == more;
    assert [c] + text + end + Joined(more) == [c] + (text + end + Joined(more));
  }

  /** Every text without NUL is made of lines. */
  lemma {:induction false} HasLines(s: string) returns (lines: seq<Line>, last: string)
    requires NoNul(s)
    ensures s == Joined(lines) + last && OneLine(last) && AreLines(lines, last)
    decreases |s|
  {
    if s == "" {
      return [], "";
    }
    if s[0] == '\r' || s[0] == '\n' {
      var k := if |s| > 1 && s[1] != s[0] && (s[1] == '\r' || s[1] == '\n') then 2 else 1;
      lines, last := HasLines(s[k..]);
      EndIs(s, k);
      hide IsLineEnd, Whole, AreLines, Joined, OneLine;
      EndFirst(s[..k], lines, last);
      Regroup(s[..k], Joined(lines), last);
      lines := [Line("", s[..k])] + lines;
    } else {
      lines, last := HasLines(s[1..]);
      assert s == [s[0]] + s[1..];
      if lines == [] {
        last := [s[0]] + last;
      } else {
        CharFirst(s[0], lines, last);
        Regroup([s[0]], Joined(lines), last);
        lines := [Line([s[0]] + lines[0].text, lines[0].end)] + lines[1..];
      }
    }
  }

  lemma EndIs(s: string, k: nat)
    requires s != "" && (s[0] == '\r' || s[0] == '\n')
    requires k == if |s| > 1 && s[1] != s[0] && (s[1] == '\r' || s[1] == '\n') then 2 else 1
    ensures IsLineEnd(s[..k]) && Whole(s[..k], s[k..]) && s == s[..k] + s[k..]
  {
    if k == 2 {
      assert s[..k] == [s[0], s[1]];
    } else {
      assert s[..k] == [s[0]];
    }
  }
}
