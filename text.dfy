/**
  The string operations of JavaScript that the server and the certificate form rely on:
  truthiness of strings, trim(), parseInt's notion of "is a number", String(n) and
  padStart for identifiers, split(':') for store keys, and the case-insensitive
  substring test of the listing searches.
  Characters are Unicode scalar values; JavaScript's UTF-16 code units are not modelled.
*/
module Text {

  /** An ASCII decimal digit: what `\d` matches in a JavaScript regular expression. */
  predicate IsDigit(c: char) {
    '0' <= c <= '9'
  }

  predicate IsHexDigit(c: char) {
    IsDigit(c) || 'a' <= c <= 'f' || 'A' <= c <= 'F'
  }

  predicate AllDigits(s: string) {
    forall i :: 0 <= i < |s| ==> IsDigit(s[i])
  }

  /** The WhiteSpace and LineTerminator characters of ECMAScript: what trim() strips
      and what parseInt skips before the number. */
  predicate IsJsSpace(c: char) {
    || c == '\t' || c == '\n' || c == '\U{000B}' || c == '\U{000C}' || c == '\r' || c == ' '
    || c == '\U{00A0}' || c == '\U{1680}' || ('\U{2000}' <= c <= '\U{200A}')
    || c == '\U{2028}' || c == '\U{2029}' || c == '\U{202F}' || c == '\U{205F}'
    || c == '\U{3000}' || c == '\U{FEFF}'
  }

  predicate IsBlank(s: string) {
    forall i :: 0 <= i < |s| ==> IsJsSpace(s[i])
  }

  // ---------------------------------------------------------------------------
  // trim()

  /** s without its leading white space. */
  function TrimStart(s: string): string {
    if |s| > 0 && IsJsSpace(s[0]) then TrimStart(s[1..]) else s
  }

  /** s without its trailing white space. */
  function TrimEnd(s: string): string {
    if |s| > 0 && IsJsSpace(s[|s| - 1]) then TrimEnd(s[..|s| - 1]) else s
  }

  /** TrimStart(s) is a suffix of s that does not start with white space, and all it
      drops is white space. */
  lemma TrimStartShape(s: string)
    ensures var r := TrimStart(s);
            |r| <= |s| && r == s[|s| - |r|..] && (r == [] || !IsJsSpace(r[0])) && IsBlank(s[..|s| - |r|])
  {
    TrimStartSuffix(s);
    TrimStartFirst(s);
    TrimStartDropsBlank(s);
  }

  lemma {:induction false} TrimStartSuffix(s: string)
    ensures |TrimStart(s)| <= |s| && TrimStart(s) == s[|s| - |TrimStart(s)|..]
  {
    if |s| > 0 && IsJsSpace(s[0]) {
      TrimStartSuffix(s[1..]);
      TailOfTail(s, |s| - 1 - |TrimStart(s[1..])|);
    }
  }

  lemma TailOfTail(s: string, m: nat)
    requires m < |s|
    ensures s[1..][m..] == s[m + 1..]
  {
    assert |s[1..][m..]| == |s[m + 1..]|;
    forall i | 0 <= i < |s[m + 1..]| ensures s[1..][m..][i] == s[m + 1..][i] {
    }
  }

  lemma {:induction false} TrimStartFirst(s: string)
    ensures TrimStart(s) == [] || !IsJsSpace(TrimStart(s)[0])
  {
    if |s| > 0 && IsJsSpace(s[0]) {
      TrimStartFirst(s[1..]);
    }
  }

  lemma {:induction false} TrimStartDropsBlank(s: string)
    ensures |TrimStart(s)| <= |s| && IsBlank(s[..|s| - |TrimStart(s)|])
  {
    if |s| > 0 && IsJsSpace(s[0]) {
      TrimStartDropsBlank(s[1..]);
      var k := |s| - 1 - |TrimStart(s[1..])|;
      BlankAround([s[0]], s[1..][..k], []);
      assert s[..k + 1] == [s[0]] + s[1..][..k] + [];
    } else {
      assert s[..0] == [];
    }
  }

  /** TrimEnd(s) is a prefix of s that does not end with white space, and all it drops
      is white space. */
  lemma TrimEndShape(s: string)
    ensures var r := TrimEnd(s);
            |r| <= |s| && r == s[..|r|] && (r == [] || !IsJsSpace(r[|r| - 1])) && IsBlank(s[|r|..])
  {
    TrimEndPrefix(s);
    TrimEndLast(s);
    TrimEndDropsBlank(s);
  }

  lemma {:induction false} TrimEndPrefix(s: string)
    ensures |TrimEnd(s)| <= |s| && TrimEnd(s) == s[..|TrimEnd(s)|]
  {
    if |s| > 0 && IsJsSpace(s[|s| - 1]) {
      TrimEndPrefix(s[..|s| - 1]);
      HeadOfHead(s, |TrimEnd(s[..|s| - 1])|);
    }
  }

  lemma HeadOfHead(s: string, m: nat)
    requires m < |s|
    ensures s[..|s| - 1][..m] == s[..m]
  {
    assert |s[..|s| - 1][..m]| == |s[..m]|;
    forall i | 0 <= i < m ensures s[..|s| - 1][..m][i] == s[..m][i] {
    }
  }

  lemma {:induction false} TrimEndLast(s: string)
    ensures TrimEnd(s) == [] || !IsJsSpace(TrimEnd(s)[|TrimEnd(s)| - 1])
  {
    if |s| > 0 && IsJsSpace(s[|s| - 1]) {
      TrimEndLast(s[..|s| - 1]);
    }
  }

  lemma {:induction false} TrimEndDropsBlank(s: string)
    ensures |TrimEnd(s)| <= |s| && IsBlank(s[|TrimEnd(s)|..])
  {
    if |s| > 0 && IsJsSpace(s[|s| - 1]) {
      TrimEndDropsBlank(s[..|s| - 1]);
      var k := |TrimEnd(s[..|s| - 1])|;
      BlankAround([], s[..|s| - 1][k..], [s[|s| - 1]]);
      assert s[k..] == [] + s[..|s| - 1][k..] + [s[|s| - 1]];
    } else {
      assert s[|s|..] == [];
    }
  }

  /** White space on either side of white space is white space. */
  lemma BlankAround(a: string, b: string, c: string)
    requires IsBlank(a) && IsBlank(b) && IsBlank(c)
    ensures IsBlank(a + b + c)
  {
    forall i | 0 <= i < |a + b + c| ensures IsJsSpace((a + b + c)[i]) {
      if i < |a| {
        assert (a + b + c)[i] == a[i];
      } else if i < |a| + |b| {
        assert (a + b + c)[i] == b[i - |a|];
      } else {
        assert (a + b + c)[i] == c[i - |a| - |b|];
      }
    }
  }

  /** String.prototype.trim. */
  function Trim(s: string): string {
    TrimEnd(TrimStart(s))
  }

  /** `s.trim() === ''` holds exactly for the strings made of white space only. */
  lemma TrimEmptyIffBlank(s: string)
    ensures Trim(s) == "" <==> IsBlank(s)
  {
    var t := TrimStart(s);
    TrimStartShape(s);
    TrimEndShape(t);
    assert s == s[..|s| - |t|] + t;
    assert t != [] ==> t[0] == s[|s| - |t|];
  }

  // ---------------------------------------------------------------------------
  // parseInt

  /** `!isNaN(parseInt(s))`: after white space and at most one sign, either a "0x"/"0X"
      prefix followed by a hexadecimal digit, or a decimal digit (ECMAScript parseInt with
      no radix). */
  predicate ParsesAsInt(s: string) {
    var t := TrimStart(s);
    var u := if |t| > 0 && (t[0] == '+' || t[0] == '-') then t[1..] else t;
    if |u| >= 2 && u[0] == '0' && (u[1] == 'x' || u[1] == 'X') then
      |u| >= 3 && IsHexDigit(u[2])
    else
      |u| >= 1 && IsDigit(u[0])
  }

  /** Every non-empty string of decimal digits is a number for parseInt. */
  lemma DigitsParseAsInt(s: string)
    requires |s| > 0 && AllDigits(s)
    ensures ParsesAsInt(s)
  {
    assert !IsJsSpace(s[0]);
    assert TrimStart(s) == s;
  }

  /** parseInt does not look past the first character after white space and sign: what
      follows a leading digit never matters. */
  lemma ParsesAsIntIgnoresTail(d: char, tail: string)
    requires IsDigit(d) && d != '0'
    ensures ParsesAsInt([d] + tail)
  {
    var s := [d] + tail;
    assert !IsJsSpace(s[0]);
    assert TrimStart(s) == s;
  }

  // ---------------------------------------------------------------------------
  // Decimal numerals

  function Pow10(k: nat): (p: nat)
    ensures p >= 1
  {
    if k == 0 then 1 else 10 * Pow10(k - 1)
  }

  function DigitChar(d: nat): (c: char)
    requires d < 10
    ensures IsDigit(c)
  {
    ('0' as int + d) as char
  }

  function DigitValue(c: char): (d: nat)
    requires IsDigit(c)
    ensures d < 10
  {
    c as int - '0' as int
  }

  /** String(n) for a non-negative integer n: its decimal numeral, no leading zero. */
  function Dec(n: nat): (r: string)
    ensures |r| >= 1 && AllDigits(r)
  {
    if n < 10 then [DigitChar(n)] else Dec(n / 10) + [DigitChar(n % 10)]
  }

  /** String(i) for an integer i. */
  function IntToString(i: int): string {
    if i < 0 then "-" + Dec(-i) else Dec(i)
  }

  /** The number a string of decimal digits denotes, leading zeros allowed. */
  function Value(s: string): nat
    requires AllDigits(s)
  {
    if s == [] then 0 else DigitValue(s[0]) * Pow10(|s| - 1) + Value(s[1..])
  }

  lemma MulMonotone(a: nat, b: nat, p: nat)
    requires a <= b
    ensures a * p <= b * p
  {
  }

  lemma {:induction false} ValueBound(s: string)
    requires AllDigits(s)
    ensures Value(s) < Pow10(|s|)
  {
    if s != [] {
      ValueBound(s[1..]);
      var d, p := DigitValue(s[0]), Pow10(|s| - 1);
      MulMonotone(d + 1, 10, p);
      assert Value(s) == d * p + Value(s[1..]);
      assert Pow10(|s|) == 10 * p;
      assert d * p + p == (d + 1) * p;
    }
  }

  lemma {:induction false} ValueAppend(s: string, c: char)
    requires AllDigits(s) && IsDigit(c)
    ensures AllDigits(s + [c]) && Value(s + [c]) == 10 * Value(s) + DigitValue(c)
  {
    var t := s + [c];
    if s == [] {
      assert t[1..] == [];
    } else {
      assert t[1..] == s[1..] + [c];
      ValueAppend(s[1..], c);
      var d, p := DigitValue(s[0]), Pow10(|s| - 1);
      assert Pow10(|t| - 1) == 10 * p;
      ShiftDigit(d, p, Value(s[1..]), DigitValue(c));
    }
  }

  lemma ShiftDigit(d: nat, p: nat, v: nat, e: nat)
    ensures d * (10 * p) + (10 * v + e) == 10 * (d * p + v) + e
  {
  }

  /** Dec is a numeral for n: reading it back gives n. */
  lemma {:induction false} ValueOfDec(n: nat)
    ensures Value(Dec(n)) == n
  {
    if n >= 10 {
      ValueOfDec(n / 10);
      ValueAppend(Dec(n / 10), DigitChar(n % 10));
    } else {
      assert Dec(n)[1..] == [];
    }
  }

  /** Different numbers have different numerals. */
  lemma DecInjective(a: nat, b: nat)
    ensures Dec(a) == Dec(b) <==> a == b
  {
    ValueOfDec(a);
    ValueOfDec(b);
  }

  lemma DivTenBelow(n: nat, p: nat)
    ensures n / 10 < p <==> n < 10 * p
  {
  }

  /** The numeral of n has at most k digits exactly when n < 10^k. */
  lemma {:induction false} DecLength(n: nat, k: nat)
    requires k >= 1
    ensures |Dec(n)| <= k <==> n < Pow10(k)
  {
    assert Pow10(k) == 10 * Pow10(k - 1);
    if n >= 10 {
      assert |Dec(n)| == |Dec(n / 10)| + 1;
      if k == 1 {
        assert Pow10(1) == 10;
      } else {
        DecLength(n / 10, k - 1);
        DivTenBelow(n, Pow10(k - 1));
      }
    }
  }

  // ---------------------------------------------------------------------------
  // padStart

  function Repeat(c: char, n: nat): (r: string)
    ensures |r| == n && forall i :: 0 <= i < n ==> r[i] == c
  {
    if n == 0 then [] else [c] + Repeat(c, n - 1)
  }

  /** s.padStart(width, fill) for a one-character fill: fills on the left up to width
      characters and never shortens s. */
  function PadStart(s: string, width: nat, fill: char): (r: string)
    ensures |r| == if |s| >= width then |s| else width
    ensures r[|r| - |s|..] == s
    ensures forall i :: 0 <= i < |r| - |s| ==> r[i] == fill
  {
    if |s| >= width then s else Repeat(fill, width - |s|) + s
  }

  /** Leading zeros do not change the number a numeral denotes. */
  lemma {:induction false} ValueLeadingZeros(z: nat, s: string)
    requires AllDigits(s)
    ensures AllDigits(Repeat('0', z) + s) && Value(Repeat('0', z) + s) == Value(s)
  {
    if z > 0 {
      var t := Repeat('0', z) + s;
      assert t[0] == '0' && DigitValue('0') == 0;
      assert t[1..] == Repeat('0', z - 1) + s;
      assert Value(t) == 0 * Pow10(|t| - 1) + Value(t[1..]);
      ValueLeadingZeros(z - 1, s);
      assert AllDigits(t) by {
        forall i | 0 <= i < |t| ensures IsDigit(t[i]) {
          if i > 0 { assert t[i] == t[1..][i - 1]; }
        }
      }
    } else {
      assert Repeat('0', z) + s == s;
    }
  }

  /** A zero-padded numeral still denotes its number. */
  lemma ValueOfPadded(n: nat, width: nat)
    ensures AllDigits(PadStart(Dec(n), width, '0'))
    ensures Value(PadStart(Dec(n), width, '0')) == n
  {
    ValueOfDec(n);
    if |Dec(n)| < width {
      ValueLeadingZeros(width - |Dec(n)|, Dec(n));
      assert PadStart(Dec(n), width, '0') == Repeat('0', width - |Dec(n)|) + Dec(n);
    }
  }

  // ---------------------------------------------------------------------------
  // Ordering of strings

  /** a < b for JavaScript strings: lexicographic order of characters. */
  predicate LexLess(a: string, b: string) {
    |b| > 0 && (|a| == 0 || a[0] < b[0] || (a[0] == b[0] && LexLess(a[1..], b[1..])))
  }

  lemma DominatesArith(da: nat, db: nat, va: nat, vb: nat, p: nat)
    requires da < db && va < p
    ensures da * p + va < db * p + vb
  {
    MulMonotone(da + 1, db, p);
    assert (da + 1) * p == da * p + p;
  }

  /** A smaller leading digit makes a smaller number, whatever the digits after it. */
  lemma LeadingDigitDominates(a: string, b: string)
    requires AllDigits(a) && AllDigits(b) && |a| == |b| > 0
    requires DigitValue(a[0]) < DigitValue(b[0])
    ensures Value(a) < Value(b)
  {
    ValueBound(a[1..]);
    DominatesArith(DigitValue(a[0]), DigitValue(b[0]), Value(a[1..]), Value(b[1..]), Pow10(|a| - 1));
  }

  /** On numerals of the same length, lexicographic order is numeric order. */
  lemma {:induction false} LexLessDigits(a: string, b: string)
    requires AllDigits(a) && AllDigits(b) && |a| == |b|
    ensures LexLess(a, b) <==> Value(a) < Value(b)
  {
    if a != [] {
      var da, db := DigitValue(a[0]), DigitValue(b[0]);
      if da < db {
        LeadingDigitDominates(a, b);
        assert a[0] < b[0];
      } else if db < da {
        LeadingDigitDominates(b, a);
        assert b[0] < a[0];
      } else {
        assert a[0] == b[0];
        LexLessDigits(a[1..], b[1..]);
        assert Value(a) == da * Pow10(|a| - 1) + Value(a[1..]);
        assert Value(b) == db * Pow10(|a| - 1) + Value(b[1..]);
      }
    }
  }

  /** A common prefix does not change the order. */
  lemma {:induction false} LexLessCommonPrefix(p: string, a: string, b: string)
    ensures LexLess(p + a, p + b) <==> LexLess(a, b)
  {
    if p != [] {
      assert (p + a)[0] == p[0] == (p + b)[0];
      assert (p + a)[1..] == p[1..] + a;
      assert (p + b)[1..] == p[1..] + b;
      LexLessCommonPrefix(p[1..], a, b);
      assert LexLess(p + a, p + b) == LexLess(p[1..] + a, p[1..] + b);
    } else {
      assert p + a == a && p + b == b;
    }
  }

  // ---------------------------------------------------------------------------
  // Substrings and case

  predicate StartsWith(s: string, prefix: string) {
    |prefix| <= |s| && s[..|prefix|] == prefix
  }

  /** hay.includes(needle). */
  predicate Contains(hay: string, needle: string)
    decreases |hay|
  {
    StartsWith(hay, needle) || (|hay| > 0 && Contains(hay[1..], needle))
  }

  /** needle occurs in hay at position i. */
  predicate OccursAt(hay: string, needle: string, i: int) {
    0 <= i <= |hay| - |needle| && hay[i..i + |needle|] == needle
  }

  lemma {:induction false} OccursAtContains(hay: string, needle: string, i: int)
    requires OccursAt(hay, needle, i)
    ensures Contains(hay, needle)
    decreases i
  {
    if i == 0 {
      assert hay[..|needle|] == hay[0..0 + |needle|];
    } else {
      assert hay[i..i + |needle|] == hay[1..][i - 1..i - 1 + |needle|];
      OccursAtContains(hay[1..], needle, i - 1);
    }
  }

  /** includes finds the needle exactly when it occurs at some position. */
  lemma {:induction false} ContainsIffOccurs(hay: string, needle: string)
    ensures Contains(hay, needle) <==> exists i :: OccursAt(hay, needle, i)
  {
    if StartsWith(hay, needle) {
      assert OccursAt(hay, needle, 0);
    } else if |hay| > 0 && Contains(hay[1..], needle) {
      ContainsIffOccurs(hay[1..], needle);
      var i :| OccursAt(hay[1..], needle, i);
      assert hay[i + 1..i + 1 + |needle|] == hay[1..][i..i + |needle|];
      assert OccursAt(hay, needle, i + 1);
    }
    forall i | OccursAt(hay, needle, i)
      ensures Contains(hay, needle)
    {
      OccursAtContains(hay, needle, i);
    }
  }

  /** toLowerCase on the ASCII letters; other characters are kept. */
  function LowerChar(c: char): char {
    if 'A' <= c <= 'Z' then (c as int + 32) as char else c
  }

  function Lower(s: string): (r: string)
    ensures |r| == |s| && forall i :: 0 <= i < |s| ==> r[i] == LowerChar(s[i])
  {
    seq(|s|, i requires 0 <= i < |s| => LowerChar(s[i]))
  }

  /** Lowering twice is lowering once, so a search term already in lower case is
      looked up unchanged. */
  lemma LowerIdempotent(s: string)
    ensures Lower(Lower(s)) == Lower(s)
  {
  }

  /** `String(value).toLowerCase().includes(search.toLowerCase())`. */
  predicate ContainsIgnoringCase(value: string, search: string) {
    Contains(Lower(value), Lower(search))
  }

  // ---------------------------------------------------------------------------
  // split

  /** s.split(sep) for a one-character separator. */
  function Split(s: string, sep: char): (parts: seq<string>)
    ensures |parts| >= 1
  {
    if s == [] then [""]
    else
      var rest := Split(s[1..], sep);
      if s[0] == sep then [""] + rest else [[s[0]] + rest[0]] + rest[1..]
  }

  function Occurrences(s: string, c: char): nat {
    if s == [] then 0 else (if s[0] == c then 1 else 0) + Occurrences(s[1..], c)
  }

  /** split yields one more part than there are separators. */
  lemma {:induction false} SplitCount(s: string, sep: char)
    ensures |Split(s, sep)| == Occurrences(s, sep) + 1
  {
    if s != [] {
      SplitCount(s[1..], sep);
    }
  }

  lemma {:induction false} OccurrencesZero(s: string, c: char)
    ensures Occurrences(s, c) == 0 <==> c !in s
  {
    if s != [] {
      OccurrencesZero(s[1..], c);
      assert s == [s[0]] + s[1..];
    }
  }

  /** A string without the separator is a single part. */
  lemma {:induction false} SplitWithoutSep(s: string, sep: char)
    requires sep !in s
    ensures Split(s, sep) == [s]
  {
    if s != [] {
      assert s[0] in s;
      assert forall c :: c in s[1..] ==> c in s;
      SplitWithoutSep(s[1..], sep);
      assert [s[0]] + s[1..] == s;
    }
  }

  /** Splitting "p<sep>u", where p has no separator, gives p and then the parts of u. */
  lemma {:induction false} SplitAfterPrefix(p: string, sep: char, u: string)
    requires sep !in p
    ensures Split(p + [sep] + u, sep) == [p] + Split(u, sep)
  {
    var s := p + [sep] + u;
    if p == [] {
      assert s[0] == sep;
      assert s[1..] == u;
    } else {
      assert s[0] == p[0] && p[0] in p;
      assert s[1..] == p[1..] + [sep] + u;
      assert forall c :: c in p[1..] ==> c in p;
      SplitAfterPrefix(p[1..], sep, u);
      assert [p[0]] + p[1..] == p;
    }
  }
}
