/** String helpers with JavaScript's meaning: `String.prototype.split` on
    "\n", `Array.prototype.join`, and `Number.prototype.toString` on integers. */
module Text {

  /** `s.split("\n")`: the pieces between line feeds, in order. A string with
      n line feeds has n + 1 pieces; the empty string has one empty piece. */
  function SplitLines(s: string): (r: seq<string>)
    ensures |r| >= 1
  {
    if s == [] then [""]
    else
      var rest := SplitLines(s[1..]);
      if s[0] == '\n' then [""] + rest
      else [[s[0]] + rest[0]] + rest[1..]
  }

  /** `pieces.join(sep)`. */
  function Join(pieces: seq<string>, sep: string): string {
    if pieces == [] then ""
    else if |pieces| == 1 then pieces[0]
    else pieces[0] + sep + Join(pieces[1..], sep)
  }

  /** The number of occurrences of `c` in `s`. */
  function Count(s: string, c: char): nat {
    if s == [] then 0 else (if s[0] == c then 1 else 0) + Count(s[1..], c)
  }

  /** Joining the pieces with "\n" gives back the original text. */
  lemma {:induction false} JoinSplitLines(s: string)
    ensures Join(SplitLines(s), "\n") == s
  {
    if s != [] {
      var rest := SplitLines(s[1..]);
      JoinSplitLines(s[1..]);
      if s[0] == '\n' {
        assert SplitLines(s) == [""] + rest;
        assert Join(SplitLines(s), "\n") == "" + "\n" + Join(rest, "\n");
      } else {
        var r := SplitLines(s);
        assert r == [[s[0]] + rest[0]] + rest[1..];
        if |rest| == 1 {
          assert Join(r, "\n") == [s[0]] + rest[0];
        } else {
          assert Join(rest, "\n") == rest[0] + "\n" + Join(rest[1..], "\n");
          assert r[1..] == rest[1..];
          assert Join(r, "\n") == [s[0]] + rest[0] + "\n" + Join(rest[1..], "\n");
        }
      }
    }
  }

  /** No piece contains a line feed, and there is one piece more than there
      are line feeds. */
  lemma {:induction false} SplitLinesPieces(s: string)
    ensures forall i | 0 <= i < |SplitLines(s)| :: '\n' !in SplitLines(s)[i]
    ensures |SplitLines(s)| == Count(s, '\n') + 1
  {
    if s != [] {
      SplitLinesPieces(s[1..]);
      var rest := SplitLines(s[1..]);
      if s[0] != '\n' {
        var r := SplitLines(s);
        assert r == [[s[0]] + rest[0]] + rest[1..];
        forall i | 0 <= i < |r| ensures '\n' !in r[i] {
          if i > 0 { assert r[i] == rest[i]; }
        }
      }
    }
  }

  /** Splitting is the inverse of joining: pieces free of line feeds are
      recovered from their "\n"-join. */
  lemma {:induction false} SplitLinesJoin(pieces: seq<string>)
    requires |pieces| >= 1
    requires forall i | 0 <= i < |pieces| :: '\n' !in pieces[i]
    ensures SplitLines(Join(pieces, "\n")) == pieces
  {
    if |pieces| == 1 {
      SplitLinesNoFeed(pieces[0]);
    } else {
      SplitLinesJoin(pieces[1..]);
      SplitLinesPrefix(pieces[0], Join(pieces[1..], "\n"));
      assert Join(pieces, "\n") == pieces[0] + "\n" + Join(pieces[1..], "\n");
    }
  }

  lemma {:induction false} SplitLinesNoFeed(p: string)
    requires '\n' !in p
    ensures SplitLines(p) == [p]
  {
    if p != [] {
      SplitLinesNoFeed(p[1..]);
      assert [p[0]] + p[1..] == p;
    }
  }

  lemma {:induction false} SplitLinesPrefix(p: string, t: string)
    requires '\n' !in p
    ensures SplitLines(p + "\n" + t) == [p] + SplitLines(t)
  {
    if p == [] {
      assert p + "\n" + t == "\n" + t;
      assert ("\n" + t)[1..] == t;
    } else {
      SplitLinesPrefix(p[1..], t);
      var s := p + "\n" + t;
      assert s[1..] == p[1..] + "\n" + t;
      assert s[0] == p[0];
      var rest := SplitLines(s[1..]);
      assert rest == [p[1..]] + SplitLines(t);
      assert SplitLines(s) == [[p[0]] + rest[0]] + rest[1..];
      assert [p[0]] + p[1..] == p;
    }
  }

  /** The decimal digit for 0 <= d < 10. */
  function Digit(d: nat): (c: char)
    requires d < 10
    ensures '0' <= c <= '9' && c as int - '0' as int == d
  {
    ('0' as int + d) as char
  }

  /** `n.toString()` for a non-negative integer: its decimal numeral without
      leading zeros. */
  function NatToString(n: nat): (r: string)
    ensures |r| >= 1
    ensures forall i | 0 <= i < |r| :: '0' <= r[i] <= '9'
    decreases n
  {
    if n < 10 then [Digit(n)] else NatToString(n / 10) + [Digit(n % 10)]
  }

  /** `n.toString()` for any integer: a minus sign before negative numbers. */
  function IntToString(n: int): string {
    if n < 0 then "-" + NatToString(-n) else NatToString(n)
  }

  /** Distinct numbers have distinct decimal numerals, so the keys "1", "2", ...
      of a line map never collide. */
  lemma {:induction false} NatToStringInjective(a: nat, b: nat)
    requires NatToString(a) == NatToString(b)
    ensures a == b
    decreases a
  {
    var s := NatToString(a);
    if a < 10 && b < 10 {
      assert Digit(a) == s[0] == Digit(b);
    } else if a >= 10 && b >= 10 {
      var ra, rb := NatToString(a / 10), NatToString(b / 10);
      assert |ra| == |rb|;
      assert s[|s| - 1] == Digit(a % 10) == Digit(b % 10);
      assert ra == s[..|s| - 1] == rb;
      NatToStringInjective(a / 10, b / 10);
    } else if a < 10 {
      NatToStringLong(b);
    } else {
      NatToStringLong(a);
    }
  }

  lemma {:induction false} NatToStringLong(n: nat)
    requires n >= 10
    ensures |NatToString(n)| >= 2
  {
  }
}
