/**
 * Strings as JavaScript sees them: decimal rendering of integers
 * (template literals `${n}`), `Number(...)` on digit strings, the
 * code-unit ordering behind `<` on strings, and `String.prototype.trim`.
 */
module Text {

  predicate IsDigit(c: char) {
    '0' <= c <= '9'
  }

  predicate AllDigits(s: string) {
    forall i :: 0 <= i < |s| ==> IsDigit(s[i])
  }

  /** A decimal numeral as `${n}` prints it: at least one digit, no leading zero. */
  predicate IsNumeral(s: string) {
    |s| >= 1 && AllDigits(s) && (|s| == 1 || s[0] != '0')
  }

  function DigitChar(k: int): (c: char)
    requires 0 <= k < 10
    ensures IsDigit(c)
    ensures c as int - '0' as int == k
  {
    (k + '0' as int) as char
  }

  function DigitValue(c: char): (k: int)
    requires IsDigit(c)
    ensures 0 <= k < 10
    ensures DigitChar(k) == c
  {
    c as int - '0' as int
  }

  /** `${n}` for a non-negative integer. */
  function NatToString(n: nat): (s: string)
    ensures IsNumeral(s)
    ensures n < 10 <==> |s| == 1
    decreases n
  {
    if n < 10 then [DigitChar(n)] else NatToString(n / 10) + [DigitChar(n % 10)]
  }

  /** `${n}` for any integer. */
  function IntToString(n: int): string {
    if n < 0 then "-" + NatToString(-n) else NatToString(n)
  }

  /** `Number(s)` for a string of decimal digits. */
  function Value(s: string): nat
    requires AllDigits(s)
  {
    if |s| == 0 then 0 else 10 * Value(s[..|s| - 1]) + DigitValue(s[|s| - 1])
  }

  lemma {:induction false} ValueOfNatToString(n: nat)
    ensures Value(NatToString(n)) == n
    decreases n
  {
    if n >= 10 {
      var s := NatToString(n);
      assert s[..|s| - 1] == NatToString(n / 10);
      ValueOfNatToString(n / 10);
    }
  }

  lemma {:induction false} ValuePositive(s: string)
    requires IsNumeral(s) && s[0] != '0'
    ensures Value(s) >= 1
    decreases |s|
  {
    if |s| > 1 {
      ValuePositive(s[..|s| - 1]);
    }
  }

  lemma {:induction false} NatToStringOfValue(s: string)
    requires IsNumeral(s)
    ensures NatToString(Value(s)) == s
    decreases |s|
  {
    if |s| > 1 {
      var p := s[..|s| - 1];
      assert IsNumeral(p) && p[0] != '0';
      ValuePositive(p);
      NatToStringOfValue(p);
      assert s == p + [s[|s| - 1]];
    }
  }

  lemma NatToStringInjective(a: nat, b: nat)
    ensures NatToString(a) == NatToString(b) ==> a == b
  {
    ValueOfNatToString(a);
    ValueOfNatToString(b);
  }

  /** Distinct integers print differently, so a printed integer can be read back. */
  lemma IntToStringInjective(a: int, b: int)
    ensures IntToString(a) == IntToString(b) <==> a == b
  {
    if IntToString(a) == IntToString(b) {
      if a < 0 && b < 0 {
        assert NatToString(-a) == IntToString(a)[1..];
        NatToStringInjective(-a, -b);
      } else if a >= 0 && b >= 0 {
        NatToStringInjective(a, b);
      }
    }
  }

  /** Four-digit numbers print as exactly four characters. */
  lemma FourDigitLength(n: nat)
    requires 1000 <= n <= 9999
    ensures |NatToString(n)| == 4
  {
    var a, b, c := n / 10, n / 10 / 10, n / 10 / 10 / 10;
    assert 100 <= a <= 999 && 10 <= b <= 99 && 1 <= c <= 9;
    assert |NatToString(c)| == 1;
    assert |NatToString(b)| == |NatToString(c)| + 1;
    assert |NatToString(a)| == |NatToString(b)| + 1;
  }

  /**
   * JavaScript's `a < b` on strings: lexicographic, a proper prefix coming
   * first. JavaScript compares UTF-16 code units and a Dafny `char` is a
   * Unicode scalar value; the two orders agree on the Basic Multilingual
   * Plane, which holds the digits and dashes of ISO dates compared here.
   */
  predicate StrLt(a: string, b: string)
    decreases |a|
  {
    if |a| == 0 then |b| > 0
    else if |b| == 0 then false
    else if a[0] != b[0] then a[0] < b[0]
    else StrLt(a[1..], b[1..])
  }

  /** JavaScript's `a <= b` on strings, defined by the language as `!(b < a)`. */
  predicate StrLe(a: string, b: string) {
    !StrLt(b, a)
  }

  lemma {:induction false} StrLtIrreflexive(a: string)
    ensures !StrLt(a, a)
    decreases |a|
  {
    if |a| > 0 {
      StrLtIrreflexive(a[1..]);
    }
  }

  lemma {:induction false} StrLtTransitive(a: string, b: string, c: string)
    requires StrLt(a, b) && StrLt(b, c)
    ensures StrLt(a, c)
    decreases |a|
  {
    if |a| > 0 && a[0] == b[0] && b[0] == c[0] {
      StrLtTransitive(a[1..], b[1..], c[1..]);
    }
  }

  lemma {:induction false} StrLtTrichotomy(a: string, b: string)
    ensures a == b || StrLt(a, b) || StrLt(b, a)
    decreases |a|
  {
    if |a| > 0 && |b| > 0 && a[0] == b[0] {
      StrLtTrichotomy(a[1..], b[1..]);
      if a[1..] == b[1..] {
        assert a == [a[0]] + a[1..] && b == [b[0]] + b[1..];
      }
    }
  }

  /** `<=` on strings is `<` or equality. */
  lemma StrLeIsLtOrEq(a: string, b: string)
    ensures StrLe(a, b) <==> StrLt(a, b) || a == b
  {
    StrLtTrichotomy(a, b);
    StrLtIrreflexive(a);
    if StrLt(a, b) && StrLt(b, a) {
      StrLtTransitive(a, b, a);
    }
  }

  /** Comparing two concatenations whose first parts have equal length. */
  lemma {:induction false} StrLtConcat(p: string, x: string, q: string, y: string)
    requires |p| == |q|
    ensures StrLt(p + x, q + y) <==> StrLt(p, q) || (p == q && StrLt(x, y))
    decreases |p|
  {
    if |p| > 0 {
      assert (p + x)[0] == p[0] && (q + y)[0] == q[0];
      assert (p + x)[1..] == p[1..] + x && (q + y)[1..] == q[1..] + y;
      StrLtConcat(p[1..], x, q[1..], y);
      if p[0] == q[0] && p[1..] == q[1..] {
        assert p == [p[0]] + p[1..] && q == [q[0]] + q[1..];
      }
    } else {
      assert p + x == x && q + y == y;
    }
  }

  /** For digit strings of one length, string order is numeric order. */
  lemma {:induction false} DigitStringOrder(s: string, t: string)
    requires |s| == |t| && AllDigits(s) && AllDigits(t)
    ensures StrLt(s, t) <==> Value(s) < Value(t)
    ensures s == t <==> Value(s) == Value(t)
    decreases |s|
  {
    if |s| > 0 {
      var p, q := s[..|s| - 1], t[..|t| - 1];
      var c, e := s[|s| - 1], t[|t| - 1];
      DigitStringOrder(p, q);
      assert s == p + [c] && t == q + [e];
      StrLtConcat(p, [c], q, [e]);
      assert StrLt([c], [e]) <==> c < e;
      assert Value(s) == 10 * Value(p) + DigitValue(c);
      assert Value(t) == 10 * Value(q) + DigitValue(e);
    }
  }

  /** The characters `String.prototype.trim` removes: white space and line terminators. */
  const JsSpaces: set<char> := {
    ' ', '\t', '\n', '\r', '\U{B}', '\U{C}', '\U{A0}', '\U{1680}',
    '\U{2000}', '\U{2001}', '\U{2002}', '\U{2003}', '\U{2004}', '\U{2005}',
    '\U{2006}', '\U{2007}', '\U{2008}', '\U{2009}', '\U{200A}',
    '\U{2028}', '\U{2029}', '\U{202F}', '\U{205F}', '\U{3000}', '\U{FEFF}'
  }

  predicate IsJsSpace(c: char) {
    c in JsSpaces
  }

  predicate AllSpace(s: string) {
    forall i :: 0 <= i < |s| ==> IsJsSpace(s[i])
  }

  function TrimStart(s: string): (r: string)
    ensures |r| <= |s| && r == s[|s| - |r|..]
    ensures forall i :: 0 <= i < |s| - |r| ==> IsJsSpace(s[i])
    ensures |r| == 0 || !IsJsSpace(r[0])
    decreases |s|
  {
    if |s| > 0 && IsJsSpace(s[0]) then TrimStart(s[1..]) else s
  }

  function TrimEnd(s: string): (r: string)
    ensures |r| <= |s| && r == s[..|r|]
    ensures forall i :: |r| <= i < |s| ==> IsJsSpace(s[i])
    ensures |r| == 0 || !IsJsSpace(r[|r| - 1])
    decreases |s|
  {
    if |s| > 0 && IsJsSpace(s[|s| - 1]) then TrimEnd(s[..|s| - 1]) else s
  }

  /** `s.trim()`: drop the leading and trailing white space, keep the middle. */
  function Trim(s: string): (r: string)
    ensures |r| <= |s|
    ensures |r| == 0 || (!IsJsSpace(r[0]) && !IsJsSpace(r[|r| - 1]))
    ensures AllSpace(s) <==> r == ""
  {
    TrimEnd(TrimStart(s))
  }

  /** What `trim` keeps is one piece of the string, with only white space cut on either side. */
  lemma {:induction false} TrimKeepsMiddle(s: string)
    ensures MiddlePiece(s, |s| - |TrimStart(s)|, Trim(s))
  {
    MiddleOfTrims(s, TrimStart(s), TrimEnd(TrimStart(s)));
  }

  /** `r` is `s[k..k + |r|]`, and everything before and after it in `s` is white space. */
  predicate MiddlePiece(s: string, k: int, r: string) {
    0 <= k && k + |r| <= |s| && r == s[k..k + |r|]
    && (forall i :: 0 <= i < k ==> IsJsSpace(s[i]))
    && (forall i :: k + |r| <= i < |s| ==> IsJsSpace(s[i]))
  }

  /** A prefix `r` of a suffix `t` of `s`, with white space cut off at both ends, is a middle piece of `s`. */
  lemma MiddleOfTrims(s: string, t: string, r: string)
    requires |t| <= |s| && t == s[|s| - |t|..] && forall i :: 0 <= i < |s| - |t| ==> IsJsSpace(s[i])
    requires |r| <= |t| && r == t[..|r|] && forall i :: |r| <= i < |t| ==> IsJsSpace(t[i])
    ensures MiddlePiece(s, |s| - |t|, r)
  {
    var k := |s| - |t|;
    forall i | k + |r| <= i < |s|
      ensures IsJsSpace(s[i])
    {
      assert s[i] == t[i - k];
    }
  }

  /** A string without surrounding white space is left as it is. */
  lemma TrimUnpadded(s: string)
    requires |s| > 0 && !IsJsSpace(s[0]) && !IsJsSpace(s[|s| - 1])
    ensures Trim(s) == s
  {
  }

  /** Trimming twice changes nothing more. */
  lemma TrimIdempotent(s: string)
    ensures Trim(Trim(s)) == Trim(s)
  {
    var r := Trim(s);
    assert TrimStart(r) == r;
    assert TrimEnd(r) == r;
  }
}
