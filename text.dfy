/** String primitives of JavaScript used by the blog: lower-casing, substring
    search, trimming, splitting off the first comma field, and decimal
    conversion both ways (`toString`, `padStart`, `parseInt`). */
module Text {
  import opened Basics

  // ---------------------------------------------------------------------------
  // Case folding
  // ---------------------------------------------------------------------------

  /** `toLowerCase` on one character, ASCII letters only. */
  function LowerChar(c: char): char
  {
    if 'A' <= c <= 'Z' then (c as int - 'A' as int + 'a' as int) as char else c
  }

  /** `toLowerCase` on a string, one character at a time. */
  function Lower(s: string): (r: string)
    ensures |r| == |s|
    ensures forall i :: 0 <= i < |s| ==> r[i] == LowerChar(s[i])
  {
    seq(|s|, i requires 0 <= i < |s| => LowerChar(s[i]))
  }

  // ---------------------------------------------------------------------------
  // Substring search
  // ---------------------------------------------------------------------------

  /** `w` occurs in `s` starting at index `i`. */
  predicate OccursAt(s: string, i: int, w: string)
  {
    0 <= i && i + |w| <= |s| && s[i..i + |w|] == w
  }

  /** The meaning of `s.includes(w)`: `w` occurs somewhere in `s`. */
  predicate Contains(s: string, w: string)
  {
    exists i :: 0 <= i <= |s| - |w| && OccursAt(s, i, w)
  }

  lemma OccursAtShift(s: string, i: int, w: string)
    requires |s| > 0 && OccursAt(s[1..], i, w)
    ensures OccursAt(s, i + 1, w)
  {
    assert s[1..][i..i + |w|] == s[i + 1..i + 1 + |w|];
  }

  lemma OccursAtUnshift(s: string, i: int, w: string)
    requires i > 0 && OccursAt(s, i, w)
    ensures OccursAt(s[1..], i - 1, w)
  {
    assert s[1..][i - 1..i - 1 + |w|] == s[i..i + |w|];
  }

  /** `s.includes(w)`, scanning left to right. */
  function Includes(s: string, w: string): (r: bool)
    ensures r <==> Contains(s, w)
    decreases |s|
  {
    if |s| < |w| then false
    else if s[..|w|] == w then
      assert OccursAt(s, 0, w);
      true
    else
      var r := Includes(s[1..], w);
      if r then
        var i :| 0 <= i <= |s[1..]| - |w| && OccursAt(s[1..], i, w);
        OccursAtShift(s, i, w);
        true
      else
        assert !Contains(s, w) by {
          forall i | 0 <= i <= |s| - |w| && OccursAt(s, i, w)
            ensures false
          {
            if i != 0 { OccursAtUnshift(s, i, w); }
          }
        }
        false
  }

  // ---------------------------------------------------------------------------
  // Trimming
  // ---------------------------------------------------------------------------

  /** The characters `String.prototype.trim` strips: ECMAScript WhiteSpace
      (tab, vertical tab, form feed, space, no-break space, byte-order mark
      and the Unicode space separators) and LineTerminator. */
  const Spaces: set<char> := {
    '\t', '\U{000B}', '\U{000C}', ' ', '\U{00A0}', '\U{FEFF}',
    '\n', '\r', '\U{2028}', '\U{2029}',
    '\U{1680}', '\U{2000}', '\U{2001}', '\U{2002}', '\U{2003}', '\U{2004}', '\U{2005}',
    '\U{2006}', '\U{2007}', '\U{2008}', '\U{2009}', '\U{200A}', '\U{202F}', '\U{205F}',
    '\U{3000}'
  }

  predicate IsSpace(c: char)
  {
    c in Spaces
  }

  /** Every character of `s` is a space. */
  predicate AllSpace(s: string)
  {
    forall i :: 0 <= i < |s| ==> IsSpace(s[i])
  }

  /** `trimStart`: the suffix of `s` left after removing leading spaces. */
  function TrimStart(s: string): (r: string)
    ensures |r| <= |s| && r == s[|s| - |r|..]
    ensures forall i :: 0 <= i < |s| - |r| ==> IsSpace(s[i])
    ensures r != [] ==> !IsSpace(r[0])
  {
    if s != [] && IsSpace(s[0]) then
      var r := TrimStart(s[1..]);
      assert s[1..][|s| - 1 - |r|..] == s[|s| - |r|..];
      r
    else s
  }

  /** `trimEnd`: the prefix of `s` left after removing trailing spaces. */
  function TrimEnd(s: string): (r: string)
    ensures |r| <= |s| && r == s[..|r|]
    ensures forall i :: |r| <= i < |s| ==> IsSpace(s[i])
    ensures r != [] ==> !IsSpace(r[|r| - 1])
  {
    if s != [] && IsSpace(s[|s| - 1]) then TrimEnd(s[..|s| - 1]) else s
  }

  /** `trim`: the slice of `s` between its leading and its trailing spaces. */
  function Trim(s: string): (r: string)
    ensures |r| <= |s|
    ensures r != [] ==> !IsSpace(r[0]) && !IsSpace(r[|r| - 1])
  {
    TrimEnd(TrimStart(s))
  }

  /** A string trims to nothing exactly when it is made of spaces only. */
  lemma TrimEmptyIffAllSpace(s: string)
    ensures Trim(s) == [] <==> AllSpace(s)
  {
    TrimStartEmptyIff(s);
    TrimEndEmptyIff(TrimStart(s));
  }

  lemma {:induction false} TrimStartEmptyIff(s: string)
    ensures TrimStart(s) == [] <==> AllSpace(s)
  {
    if s != [] && IsSpace(s[0]) {
      TrimStartEmptyIff(s[1..]);
      assert forall i :: 1 <= i < |s| ==> s[i] == s[1..][i - 1];
    }
  }

  lemma {:induction false} TrimEndEmptyIff(s: string)
    ensures TrimEnd(s) == [] <==> AllSpace(s)
  {
    if s != [] && IsSpace(s[|s| - 1]) {
      TrimEndEmptyIff(s[..|s| - 1]);
      assert forall i :: 0 <= i < |s| - 1 ==> s[i] == s[..|s| - 1][i];
    }
  }

  // ---------------------------------------------------------------------------
  // Splitting
  // ---------------------------------------------------------------------------

  /** `s.split(sep)[0]`: everything before the first `sep`, or all of `s`. */
  function FirstField(s: string, sep: char): (r: string)
    ensures |r| <= |s| && r == s[..|r|]
    ensures sep !in r
    ensures |r| < |s| ==> s[|r|] == sep
  {
    if s == [] || s[0] == sep then [] else [s[0]] + FirstField(s[1..], sep)
  }

  // ---------------------------------------------------------------------------
  // Decimal rendering and parsing
  // ---------------------------------------------------------------------------

  predicate IsDigit(c: char)
  {
    '0' <= c <= '9'
  }

  predicate AllDigits(s: string)
  {
    forall i :: 0 <= i < |s| ==> IsDigit(s[i])
  }

  function DigitChar(d: nat): (c: char)
    requires d < 10
    ensures IsDigit(c) && c as int - '0' as int == d
  {
    ('0' as int + d) as char
  }

  function DigitValue(c: char): nat
    requires IsDigit(c)
  {
    c as int - '0' as int
  }

  /** The number a string of decimal digits denotes. */
  function DecimalValue(s: string): nat
    requires AllDigits(s)
  {
    if s == [] then 0 else DecimalValue(s[..|s| - 1]) * 10 + DigitValue(s[|s| - 1])
  }

  /** `n.toString()` for a non-negative integer. */
  function NatToString(n: nat): (r: string)
    ensures r != [] && AllDigits(r)
    ensures r[0] == '0' ==> n == 0 && r == "0"
  {
    if n < 10 then [DigitChar(n)] else NatToString(n / 10) + [DigitChar(n % 10)]
  }

  /** `n.toString()` for any integer. */
  function IntToString(n: int): (r: string)
    ensures r != []
  {
    if n < 0 then "-" + NatToString(-n) else NatToString(n)
  }

  /** `s.padStart(width, fill)`. */
  function PadStart(s: string, width: nat, fill: char): (r: string)
    ensures |r| == if |s| < width then width else |s|
    ensures r[|r| - |s|..] == s
    ensures forall i :: 0 <= i < |r| - |s| ==> r[i] == fill
  {
    if |s| < width then seq(width - |s|, _ => fill) + s else s
  }

  /** The longest prefix of `s` made of decimal digits. */
  function DigitPrefix(s: string): (r: string)
    ensures |r| <= |s| && r == s[..|r|] && AllDigits(r)
    ensures |r| < |s| ==> !IsDigit(s[|r|])
  {
    if s == [] || !IsDigit(s[0]) then [] else [s[0]] + DigitPrefix(s[1..])
  }

  predicate IsHexDigit(c: char)
  {
    IsDigit(c) || 'a' <= c <= 'f' || 'A' <= c <= 'F'
  }

  function HexDigitValue(c: char): nat
    requires IsHexDigit(c)
  {
    if IsDigit(c) then DigitValue(c)
    else if 'a' <= c <= 'f' then c as int - 'a' as int + 10
    else c as int - 'A' as int + 10
  }

  /** The longest prefix of `s` made of hexadecimal digits. */
  function HexPrefix(s: string): (r: string)
    ensures |r| <= |s| && r == s[..|r|]
    ensures forall i :: 0 <= i < |r| ==> IsHexDigit(r[i])
    ensures |r| < |s| ==> !IsHexDigit(s[|r|])
  {
    if s == [] || !IsHexDigit(s[0]) then [] else [s[0]] + HexPrefix(s[1..])
  }

  function HexValue(s: string): nat
    requires forall i :: 0 <= i < |s| ==> IsHexDigit(s[i])
  {
    if s == [] then 0 else HexValue(s[..|s| - 1]) * 16 + HexDigitValue(s[|s| - 1])
  }

  /** The digits after the sign in `parseInt`: a `0x`/`0X` prefix selects
      base 16, otherwise the longest run of decimal digits is read. `None`
      stands for `NaN` (no digit at all). */
  function ParseUnsigned(u: string): (r: Option<int>)
    // a number is read exactly when a digit of the selected base comes first
    ensures r.None? <==>
      if |u| >= 2 && u[0] == '0' && (u[1] == 'x' || u[1] == 'X') then |u| == 2 || !IsHexDigit(u[2])
      else u == [] || !IsDigit(u[0])
    ensures r.Some? ==> r.value >= 0
  {
    if |u| >= 2 && u[0] == '0' && (u[1] == 'x' || u[1] == 'X') then
      var h := HexPrefix(u[2..]);
      if h == [] then None else Some(HexValue(h))
    else
      var d := DigitPrefix(u);
      if d == [] then None else Some(DecimalValue(d))
  }

  /** `t` without its sign, if it has one. */
  function Unsigned(t: string): string
  {
    if t != [] && (t[0] == '-' || t[0] == '+') then t[1..] else t
  }

  /** `parseInt(s)` with no radix: leading spaces and one sign are skipped
      before the digits are read. */
  function ParseInt(s: string): (r: Option<int>)
    // `NaN` exactly when no number follows the leading space and sign
    ensures r.None? <==> ParseUnsigned(Unsigned(TrimStart(s))).None?
  {
    var t := TrimStart(s);
    if t != [] && t[0] == '-' then
      match ParseUnsigned(t[1..])
      case None => None
      case Some(v) => Some(-v)
    else if t != [] && t[0] == '+' then ParseUnsigned(t[1..])
    else ParseUnsigned(t)
  }

  lemma {:induction false} DecimalValueOfNatToString(n: nat)
    ensures DecimalValue(NatToString(n)) == n
  {
    var r := NatToString(n);
    if n >= 10 {
      DecimalValueOfNatToString(n / 10);
      assert r[..|r| - 1] == NatToString(n / 10);
    }
  }

  lemma DigitPrefixOfDigits(s: string)
    requires AllDigits(s)
    ensures DigitPrefix(s) == s
  {
    if s != [] {
      DigitPrefixOfDigits(s[1..]);
    }
  }

  /** Leading zeros do not change the value of a digit string. */
  lemma {:induction false} DecimalValueLeadingZeros(z: string, s: string)
    requires forall i :: 0 <= i < |z| ==> z[i] == '0'
    requires AllDigits(s)
    ensures AllDigits(z + s) && DecimalValue(z + s) == DecimalValue(s)
  {
    if s == [] {
      assert z + s == z;
      if z != [] {
        DecimalValueLeadingZeros(z[..|z| - 1], s);
        assert (z[..|z| - 1] + s) == z[..|z| - 1];
      }
    } else {
      DecimalValueLeadingZeros(z, s[..|s| - 1]);
      assert (z + s)[..|z + s| - 1] == z + s[..|s| - 1];
    }
  }

  lemma TrimStartNoSpace(s: string)
    requires s != [] && !IsSpace(s[0])
    ensures TrimStart(s) == s
  {
  }

  lemma ParseUnsignedOfDigits(d: string)
    requires d != [] && AllDigits(d)
    requires |d| >= 2 ==> d[0] != '0' || IsDigit(d[1])
    ensures ParseUnsigned(d) == Some(DecimalValue(d))
  {
    DigitPrefixOfDigits(d);
  }

  /** `parseInt` reads back what `toString` writes: the round trip behind
      sorting the archive's year keys numerically. */
  lemma ParseIntOfIntToString(n: int)
    ensures ParseInt(IntToString(n)) == Some(n)
  {
    if n < 0 {
      var d := NatToString(-n);
      assert IntToString(n) == "-" + d;
      assert DecimalValue(d) == -n by { DecimalValueOfNatToString(-n); }
      ParseIntOfMinusDigits(d);
    } else {
      var d := NatToString(n);
      assert IntToString(n) == d;
      assert DecimalValue(d) == n by { DecimalValueOfNatToString(n); }
      ParseIntOfDigits(d);
    }
  }

  /** The digits after the leading space and sign give `parseInt`'s
      magnitude, and only a minus sign makes the result negative. */
  lemma ParseIntSign(s: string)
    requires ParseInt(s).Some?
    ensures var t := TrimStart(s);
      var u := Unsigned(t);
      && ParseUnsigned(u).Some?
      && (ParseInt(s).value < 0 <==> t[0] == '-' && ParseUnsigned(u).value != 0)
      && (ParseInt(s).value == ParseUnsigned(u).value || ParseInt(s).value == -ParseUnsigned(u).value)
  {
  }

  lemma ParseIntOfMinusDigits(d: string)
    requires d != [] && AllDigits(d)
    ensures ParseInt("-" + d) == Some(-(DecimalValue(d) as int))
  {
    MinusTail(d);
    ParseUnsignedOfDigits(d);
    ParseIntOfMinus("-" + d, d, DecimalValue(d));
  }

  lemma MinusTail(d: string)
    ensures ("-" + d)[0] == '-' && ("-" + d)[1..] == d
  {
  }

  /** A string that starts with `-` is parsed as a negated unsigned number. */
  lemma ParseIntOfMinus(s: string, u: string, v: int)
    requires s != [] && s[0] == '-' && s[1..] == u && ParseUnsigned(u) == Some(v)
    ensures ParseInt(s) == Some(-v)
  {
    TrimStartNoSpace(s);
  }

  /** `parseInt` of a non-empty digit string is its decimal value, leading
      zeros included. */
  lemma ParseIntOfDigits(p: string)
    requires p != [] && AllDigits(p)
    ensures ParseInt(p) == Some(DecimalValue(p))
  {
    TrimStartNoSpace(p);
    ParseUnsignedOfDigits(p);
  }

  /** `parseInt` reads back a zero-padded rendering of a natural number. */
  lemma ParseIntOfPadded(n: nat, width: nat)
    ensures ParseInt(PadStart(NatToString(n), width, '0')) == Some(n)
  {
    var d := NatToString(n);
    var p := PadStart(d, width, '0');
    var z := p[..|p| - |d|];
    assert p == z + d;
    assert forall i :: 0 <= i < |z| ==> z[i] == '0';
    DecimalValueLeadingZeros(z, d);
    DecimalValueOfNatToString(n);
    ParseIntOfDigits(p);
  }
}
