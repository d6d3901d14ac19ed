/**
  The JavaScript string operations the events route relies on, over
  `seq<char>`: `trim`, `split` on a one-character separator, `<` on strings,
  decimal printing (`${n}`), `padStart` and `parseInt(_, 10)` on digit strings.
 */
module Strings {

  /** The characters `String.prototype.trim` removes: white space and line terminators. */
  predicate IsSpace(c: char) {
    c == ' ' || c == '\t' || c == '\n' || c == '\r' || c == '\U{000B}' || c == '\U{000C}'
    || c == '\U{00A0}' || c == '\U{1680}' || ('\U{2000}' <= c <= '\U{200A}')
    || c == '\U{2028}' || c == '\U{2029}' || c == '\U{202F}' || c == '\U{205F}'
    || c == '\U{3000}' || c == '\U{FEFF}'
  }

  predicate AllSpace(s: string) {
    forall i :: 0 <= i < |s| ==> IsSpace(s[i])
  }

  /** The number of white-space characters `s` starts with. */
  function LeadingSpaces(s: string): (n: nat)
    ensures n <= |s|
    ensures forall i :: 0 <= i < n ==> IsSpace(s[i])
    ensures n < |s| ==> !IsSpace(s[n])
  {
    if s != [] && IsSpace(s[0]) then
      var m := LeadingSpaces(s[1..]);
      assert forall i :: 1 <= i < 1 + m ==> s[i] == s[1..][i - 1];
      1 + m
    else 0
  }

  /** The number of white-space characters `s` ends with. */
  function TrailingSpaces(s: string): (n: nat)
    ensures n <= |s|
    ensures forall i :: |s| - n <= i < |s| ==> IsSpace(s[i])
    ensures n < |s| ==> !IsSpace(s[|s| - n - 1])
  {
    if s != [] && IsSpace(s[|s| - 1]) then
      var m := TrailingSpaces(s[..|s| - 1]);
      assert forall i :: 0 <= i < |s| - 1 ==> s[i] == s[..|s| - 1][i];
      1 + m
    else 0
  }

  /** `s.trim()`: `s` without its leading and trailing white space. */
  function Trim(s: string): string {
    var t := s[LeadingSpaces(s)..];
    t[..|t| - TrailingSpaces(t)]
  }

  /** The trimmed string is the factor of `s` that starts after its leading white space. */
  lemma TrimFactor(s: string)
    ensures LeadingSpaces(s) + |Trim(s)| <= |s|
    ensures Trim(s) == s[LeadingSpaces(s)..LeadingSpaces(s) + |Trim(s)|]
  {
    var k := LeadingSpaces(s);
    var t := s[k..];
    var r := t[..|t| - TrailingSpaces(t)];
    assert Trim(s) == r;
    assert r == s[k..k + |r|];
  }

  /** Only white space follows the trimmed string in `s`. */
  lemma TrimTail(s: string)
    ensures forall i :: LeadingSpaces(s) + |Trim(s)| <= i < |s| ==> IsSpace(s[i])
  {
    var k := LeadingSpaces(s);
    var t := s[k..];
    var r := t[..|t| - TrailingSpaces(t)];
    assert Trim(s) == r;
    assert forall i :: k + |r| <= i < |s| ==> s[i] == t[i - k];
  }

  /** The trimmed string neither starts nor ends with white space. */
  lemma TrimEnds(s: string)
    ensures Trim(s) != [] ==> !IsSpace(Trim(s)[0]) && !IsSpace(Trim(s)[|Trim(s)| - 1])
  {
    var k := LeadingSpaces(s);
    var t := s[k..];
    var n := TrailingSpaces(t);
    var r := t[..|t| - n];
    assert Trim(s) == r;
    if r != [] {
      assert r[0] == s[k];
      assert r[|r| - 1] == t[|t| - n - 1];
    }
  }

  /** `s.trim()` is empty (falsy) exactly when `s` is all white space. */
  lemma TrimEmpty(s: string)
    ensures Trim(s) == [] <==> AllSpace(s)
  {
    TrimFactor(s);
    TrimTail(s);
    TrimEnds(s);
  }

  /** Trimming twice changes nothing more. */
  lemma TrimIdempotent(s: string)
    ensures Trim(Trim(s)) == Trim(s)
  {
    TrimEnds(s);
    var r := Trim(s);
    assert LeadingSpaces(r) == 0;
    assert r[0..] == r;
    assert TrailingSpaces(r) == 0;
  }

  /** Trimming only removes characters. */
  lemma TrimKeepsOut(s: string, c: char)
    requires c !in s
    ensures c !in Trim(s)
  {
    TrimFactor(s);
    var r := Trim(s);
    var k := LeadingSpaces(s);
    forall j | 0 <= j < |r| ensures r[j] != c {
      assert r[j] == s[k + j];
    }
  }

  /** `s.split(c)`: the pieces between occurrences of `c`; the empty string gives one empty piece. */
  function Split(s: string, c: char): (r: seq<string>)
    ensures |r| >= 1
  {
    if s == [] then [[]]
    else
      var t := Split(s[1..], c);
      if s[0] == c then [[]] + t
      else [[s[0]] + t[0]] + t[1..]
  }

  /** No piece of a split contains the separator. */
  lemma {:induction false} SplitPieces(s: string, c: char)
    ensures forall i :: 0 <= i < |Split(s, c)| ==> c !in Split(s, c)[i]
  {
    if s != [] {
      SplitPieces(s[1..], c);
      var t := Split(s[1..], c);
      if s[0] == c {
        assert Split(s, c)[1..] == t;
      } else {
        assert Split(s, c)[1..] == t[1..];
      }
    }
  }

  /** Joining the pieces with the separator gives the string back. */
  lemma {:induction false} SplitJoin(s: string, c: char)
    ensures Join(Split(s, c), c) == s
  {
    if s != [] {
      SplitJoin(s[1..], c);
      var t := Split(s[1..], c);
      if s[0] == c {
        assert Split(s, c)[1..] == t;
      } else {
        var r := Split(s, c);
        assert r[1..] == t[1..];
        if |t| > 1 {
          assert Join(t, c) == t[0] + [c] + Join(t[1..], c);
          assert Join(r, c) == [s[0]] + t[0] + [c] + Join(t[1..], c);
        }
      }
    }
  }

  /** The inverse of `Split`: the pieces with `c` between each two. */
  function Join(ps: seq<string>, c: char): string
    requires |ps| >= 1
  {
    if |ps| == 1 then ps[0] else ps[0] + [c] + Join(ps[1..], c)
  }

  /** Splitting two pieces joined by a separator neither contains gives them back. */
  lemma SplitPair(a: string, b: string, c: char)
    requires c !in a && c !in b
    ensures Split(a + [c] + b, c) == [a, b]
  {
    var t := [c] + b;
    var u := Split(t, c);
    SplitSepOnly(b, c);
    assert u[0] == [] && u[1..] == [b];
    SplitAfter(a, t, c);
    assert a + [c] + b == a + t;
    calc {
      Split(a + t, c);
      [a + u[0]] + u[1..];
      { assert a + u[0] == a; }
      [a] + [b];
    }
  }

  /** A separator followed by a separator-free string splits into an empty piece and that string. */
  lemma SplitSepOnly(b: string, c: char)
    requires c !in b
    ensures Split([c] + b, c) == [[], b]
  {
    SplitNoSep(b, c);
    SplitSep(b, c);
  }

  /** A string containing the separator splits into at least two pieces. */
  lemma SplitHasSep(s: string, c: char)
    requires c in s
    ensures |Split(s, c)| >= 2
  {
    SplitPieces(s, c);
    SplitJoin(s, c);
  }

  /** A leading separator splits off an empty first piece. */
  lemma SplitSep(s: string, c: char)
    ensures Split([c] + s, c) == [[]] + Split(s, c)
  {
    assert ([c] + s)[1..] == s;
  }

  /** A string without the separator is one piece. */
  lemma {:induction false} SplitNoSep(s: string, c: char)
    requires c !in s
    ensures Split(s, c) == [s]
  {
    if s != [] {
      assert s[0] in s;
      assert forall x :: x in s[1..] ==> x in s;
      SplitNoSep(s[1..], c);
      assert [s[0]] + s[1..] == s;
    }
  }

  /** A prefix without the separator joins the first piece of what follows. */
  lemma {:induction false} SplitAfter(a: string, rest: string, c: char)
    requires c !in a
    ensures Split(a + rest, c) == [a + Split(rest, c)[0]] + Split(rest, c)[1..]
  {
    if a != [] {
      assert (a + rest)[0] == a[0];
      assert (a + rest)[1..] == a[1..] + rest;
      assert forall x :: x in a[1..] ==> x in a;
      assert a[0] in a;
      SplitAfter(a[1..], rest, c);
      assert [a[0]] + (a[1..] + Split(rest, c)[0]) == a + Split(rest, c)[0];
    } else {
      assert a + rest == rest;
      assert a + Split(rest, c)[0] == Split(rest, c)[0];
      assert [Split(rest, c)[0]] + Split(rest, c)[1..] == Split(rest, c);
    }
  }

  /** JavaScript `a < b` on strings: lexicographic order of the characters. */
  predicate LexLess(a: string, b: string) {
    if a == [] then b != []
    else b != [] && (a[0] < b[0] || (a[0] == b[0] && LexLess(a[1..], b[1..])))
  }

  /** No string sorts before itself. */
  lemma {:induction false} LexLessIrreflexive(s: string)
    ensures !LexLess(s, s)
  {
    if s != [] {
      LexLessIrreflexive(s[1..]);
    }
  }

  /** A string not before `l` sorts before everything `l` sorts before. */
  lemma {:induction false} LexLessAfter(s: string, l: string, t: string)
    requires !LexLess(l, s) && LexLess(l, t)
    ensures LexLess(s, t)
  {
    if l != [] && s != [] && l[0] == s[0] && l[0] == t[0] {
      LexLessAfter(s[1..], l[1..], t[1..]);
    }
  }

  /** Comparing two concatenations whose first parts have the same length. */
  lemma {:induction false} LexAppend(x1: string, y1: string, x2: string, y2: string)
    requires |x1| == |x2|
    ensures LexLess(x1 + y1, x2 + y2) <==> LexLess(x1, x2) || (x1 == x2 && LexLess(y1, y2))
  {
    if x1 == [] {
      assert x1 + y1 == y1 && x2 + y2 == y2;
    } else {
      assert (x1 + y1)[0] == x1[0] && (x2 + y2)[0] == x2[0];
      assert (x1 + y1)[1..] == x1[1..] + y1 && (x2 + y2)[1..] == x2[1..] + y2;
      LexAppend(x1[1..], y1, x2[1..], y2);
      assert x1 == x2 <==> x1[0] == x2[0] && x1[1..] == x2[1..] by {
        assert x1 == [x1[0]] + x1[1..] && x2 == [x2[0]] + x2[1..];
      }
    }
  }

  predicate IsDigit(c: char) {
    '0' <= c <= '9'
  }

  predicate AllDigits(s: string) {
    forall i :: 0 <= i < |s| ==> IsDigit(s[i])
  }

  function DigitChar(n: int): (c: char)
    requires 0 <= n <= 9
    ensures IsDigit(c)
  {
    (n + 48) as char
  }

  /** `parseInt(s, 10)` on a non-empty string of decimal digits. */
  function DigitsValue(s: string): (n: nat)
    requires AllDigits(s)
  {
    if s == [] then 0 else DigitsValue(s[..|s| - 1]) * 10 + ((s[|s| - 1] as int) - 48)
  }

  /** `${n}` for a natural number: its decimal digits, no leading zero. */
  function NatToString(n: nat): (r: string)
    ensures |r| >= 1 && AllDigits(r)
    ensures DigitsValue(r) == n
    ensures |r| > 1 ==> r[0] != '0'
  {
    if n < 10 then [DigitChar(n)]
    else
      var r := NatToString(n / 10) + [DigitChar(n % 10)];
      assert r[..|r| - 1] == NatToString(n / 10);
      r
  }

  /** `${n}` for an integer: a minus sign before the digits of a negative one. */
  function IntToString(n: int): string {
    if n < 0 then "-" + NatToString(-n) else NatToString(n)
  }

  /** `s.padStart(w, c)`: `c` repeated in front until `s` has `w` characters. */
  function PadStart(s: string, w: nat, c: char): (r: string)
    ensures |r| == if |s| >= w then |s| else w
    ensures r[|r| - |s|..] == s
    ensures forall i :: 0 <= i < |r| - |s| ==> r[i] == c
    decreases w - |s|
  {
    if |s| >= w then s else PadStart([c] + s, w, c)
  }

  function Pow10(w: nat): (p: nat)
    ensures p >= 1
  {
    if w == 0 then 1 else 10 * Pow10(w - 1)
  }

  /** The last `w` decimal digits of `n`, zero-padded: the fixed-width fields of an ISO date. */
  function Fixed(n: nat, w: nat): (r: string)
    ensures |r| == w && AllDigits(r)
  {
    if w == 0 then [] else Fixed(n / 10, w - 1) + [DigitChar(n % 10)]
  }

  /** A fixed-width field reads back as the number it shows. */
  lemma {:induction false} FixedValue(n: nat, w: nat)
    requires n < Pow10(w)
    ensures DigitsValue(Fixed(n, w)) == n
  {
    if w > 0 {
      var r := Fixed(n, w);
      assert r[..|r| - 1] == Fixed(n / 10, w - 1);
      FixedValue(n / 10, w - 1);
    }
  }

  /** A string of digits is the fixed-width field of the number it reads as. */
  lemma {:induction false} DigitsFixed(s: string)
    requires AllDigits(s)
    ensures DigitsValue(s) < Pow10(|s|)
    ensures Fixed(DigitsValue(s), |s|) == s
  {
    if s != [] {
      var init := s[..|s| - 1];
      DigitsFixed(init);
      var n, c := DigitsValue(s), s[|s| - 1];
      assert n / 10 == DigitsValue(init) && n % 10 == (c as int) - 48;
      assert s == init + [c];
    }
  }

  /** A number below `Pow10(w - 1)` has a leading zero in its `w`-digit field. */
  lemma {:induction false} FixedLeadingZero(n: nat, w: nat)
    requires 1 <= w && n < Pow10(w - 1)
    ensures Fixed(n, w)[0] == '0'
  {
    if w == 1 {
      assert Fixed(n, 1) == [DigitChar(0)];
    } else {
      FixedLeadingZero(n / 10, w - 1);
    }
  }

  /** `${n}` of a positive number does not start with '0'. */
  lemma NatToStringLead(n: nat)
    requires n >= 1
    ensures NatToString(n)[0] != '0'
  {
  }

  /** A number with exactly `w` digits prints as its fixed-width field. */
  lemma {:induction false} NatToStringFixed(n: nat, w: nat)
    requires w >= 1 && Pow10(w - 1) <= n < Pow10(w)
    ensures NatToString(n) == Fixed(n, w)
  {
    if w == 1 {
      assert Fixed(n / 10, 0) == [];
    } else {
      NatToStringFixed(n / 10, w - 1);
    }
  }

  /** `${n}.padStart(2, "0")` is the two-digit field for every n below 100. */
  lemma PadTwo(n: nat)
    requires n < 100
    ensures PadStart(NatToString(n), 2, '0') == Fixed(n, 2)
  {
    if n < 10 {
      assert n / 10 == 0 && n % 10 == n && 0 / 10 == 0 && 0 % 10 == 0;
      assert Fixed(0, 1) == [DigitChar(0)];
      assert Fixed(n, 2) == [DigitChar(0), DigitChar(n)];
      assert NatToString(n) == [DigitChar(n)];
      assert PadStart(['0', DigitChar(n)], 2, '0') == ['0', DigitChar(n)];
      assert PadStart([DigitChar(n)], 2, '0') == PadStart(['0'] + [DigitChar(n)], 2, '0');
    } else {
      NatToStringFixed(n, 2);
    }
  }

  /** Fixed-width fields compare as strings exactly as their numbers compare. */
  lemma {:induction false} FixedOrder(n: nat, m: nat, w: nat)
    requires n < Pow10(w) && m < Pow10(w)
    ensures LexLess(Fixed(n, w), Fixed(m, w)) <==> n < m
    ensures Fixed(n, w) == Fixed(m, w) <==> n == m
  {
    if w > 0 {
      FixedOrder(n / 10, m / 10, w - 1);
      LexAppend(Fixed(n / 10, w - 1), [DigitChar(n % 10)], Fixed(m / 10, w - 1), [DigitChar(m % 10)]);
      FixedValue(n, w);
      FixedValue(m, w);
    }
  }
}
