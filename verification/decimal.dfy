/**
  Decimal rendering of integers as QString::arg(int) produces it: the digits
  of the magnitude, preceded by '-' for a negative number, with no leading
  zeros. The parser below is the partner that shows the rendering loses
  nothing.
 */
module Decimal {

  predicate IsDigit(c: char) { '0' <= c <= '9' }

  function DigitChar(d: nat): (c: char)
    requires d < 10
    ensures IsDigit(c) && DigitValue(c) == d
  {
    ['0', '1', '2', '3', '4', '5', '6', '7', '8', '9'][d]
  }

  function DigitValue(c: char): nat
    requires IsDigit(c)
  {
    (c as int - '0' as int) as nat
  }

  /** Decimal digits of a natural number, most significant first. */
  function NatToString(n: nat): (s: string)
    ensures |s| > 0
    ensures forall i :: 0 <= i < |s| ==> IsDigit(s[i])
    ensures |s| > 1 ==> s[0] != '0'
    decreases n
  {
    if n < 10 then [DigitChar(n)] else NatToString(n / 10) + [DigitChar(n % 10)]
  }

  function IntToString(n: int): (s: string)
    ensures |s| > 0
    ensures (n < 0) <==> s[0] == '-'
  {
    if n < 0 then "-" + NatToString(-n) else NatToString(n)
  }

  /** Value of a non-empty string of decimal digits. */
  function ParseNat(s: string): nat
    requires forall i :: 0 <= i < |s| ==> IsDigit(s[i])
  {
    if |s| == 0 then 0 else 10 * ParseNat(s[..|s| - 1]) + DigitValue(s[|s| - 1])
  }

  function ParseInt(s: string): int
    requires |s| > 0
    requires s[0] == '-' ==> forall i :: 1 <= i < |s| ==> IsDigit(s[i])
    requires s[0] != '-' ==> forall i :: 0 <= i < |s| ==> IsDigit(s[i])
  {
    if s[0] == '-' then -(ParseNat(s[1..]) as int) else ParseNat(s)
  }

  lemma {:induction false} ParseNatToString(n: nat)
    ensures ParseNat(NatToString(n)) == n
    decreases n
  {
    if n >= 10 {
      var s := NatToString(n);
      assert s[..|s| - 1] == NatToString(n / 10);
      ParseNatToString(n / 10);
    }
  }

  /** Rendering an integer and reading it back gives the integer. */
  lemma ParseIntToString(n: int)
    ensures ParseInt(IntToString(n)) == n
  {
    if n < 0 {
      ParseNatToString(-n);
      assert IntToString(n)[1..] == NatToString(-n);
    } else {
      ParseNatToString(n);
    }
  }

  /** Distinct integers render differently. */
  lemma IntToStringInjective(a: int, b: int)
    requires IntToString(a) == IntToString(b)
    ensures a == b
  {
    ParseIntToString(a);
    ParseIntToString(b);
  }

  /** The "WxH+X+Y" rendering of a size and a position that Qt's display strings use. */
  function GeometryText(w: nat, h: nat, x: int, y: int): string
  {
    NatToString(w) + ("x" + (NatToString(h) + ("+" + (IntToString(x) + ("+" + IntToString(y))))))
  }

  /** Splitting a string at the first occurrence of a separator. */
  lemma SplitUnique(a: string, b: string, a': string, b': string, sep: char)
    requires sep !in a && sep !in a'
    requires a + ([sep] + b) == a' + ([sep] + b')
    ensures a == a' && b == b'
  {
    var s := a + ([sep] + b);
    assert forall i :: 0 <= i < |a| ==> s[i] == a[i] != sep;
    assert forall i :: 0 <= i < |a'| ==> s[i] == a'[i] != sep;
    assert s[|a|] == sep && s[|a'|] == sep;
    assert |a| == |a'|;
    assert a == s[..|a|] == a';
    assert b == s[|a| + 1..] == b';
  }

  lemma DigitsHaveNo(s: string, c: char)
    requires forall i :: 0 <= i < |s| ==> IsDigit(s[i])
    requires !IsDigit(c)
    ensures c !in s
  {
  }

  lemma NoSeparatorInNumber(n: nat, m: int)
    ensures 'x' !in NatToString(n) && '+' !in NatToString(n) && '+' !in IntToString(m)
  {
    DigitsHaveNo(NatToString(n), 'x');
    DigitsHaveNo(NatToString(n), '+');
    DigitsHaveNo(NatToString(if m < 0 then -m else m), '+');
  }

  /** The geometry text determines the size and the position it renders. */
  lemma GeometryTextInjective(w: nat, h: nat, x: int, y: int, w': nat, h': nat, x': int, y': int)
    requires GeometryText(w, h, x, y) == GeometryText(w', h', x', y')
    ensures w == w' && h == h' && x == x' && y == y'
  {
    NoSeparatorInNumber(w, x);
    NoSeparatorInNumber(w', x');
    NoSeparatorInNumber(h, y);
    NoSeparatorInNumber(h', y');
    var cw, ch, cx, cy := NatToString(w), NatToString(h), IntToString(x), IntToString(y);
    var dw, dh, dx, dy := NatToString(w'), NatToString(h'), IntToString(x'), IntToString(y');
    SplitUnique(cw, ch + ("+" + (cx + ("+" + cy))), dw, dh + ("+" + (dx + ("+" + dy))), 'x');
    SplitUnique(ch, cx + ("+" + cy), dh, dx + ("+" + dy), '+');
    SplitUnique(cx, cy, dx, dy, '+');
    ParseNatToString(w);
    ParseNatToString(w');
    ParseNatToString(h);
    ParseNatToString(h');
    IntToStringInjective(x, x');
    IntToStringInjective(y, y');
  }
}
