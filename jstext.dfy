/** The JavaScript string built-ins the library leans on: `trim`, ASCII
    `toLowerCase`/`toUpperCase`, `Array.prototype.join`, and the decimal
    `toString` of integers. */
module JsText {

  /** The characters `String.prototype.trim` removes: WhiteSpace (TAB, VT,
      FF, ZWNBSP and every space separator of category Zs) and
      LineTerminator (LF, CR, LS, PS), as listed in ECMAScript section 12.2
      and 12.3. */
  predicate IsWhiteSpace(c: char) {
    var n := c as int;
    n == 0x09 || n == 0x0A || n == 0x0B || n == 0x0C || n == 0x0D
    || n == 0x20 || n == 0xA0 || n == 0x1680 || (0x2000 <= n <= 0x200A)
    || n == 0x2028 || n == 0x2029 || n == 0x202F || n == 0x205F
    || n == 0x3000 || n == 0xFEFF
  }

  /** Every character of `s` is white space (vacuously true of ""). */
  predicate IsBlank(s: string) {
    forall i :: 0 <= i < |s| ==> IsWhiteSpace(s[i])
  }

  /** The first position at or after `i` that is not white space. */
  function SpaceEnd(s: string, i: nat): (j: nat)
    requires i <= |s|
    ensures i <= j <= |s|
    ensures forall k :: i <= k < j ==> IsWhiteSpace(s[k])
    ensures j < |s| ==> !IsWhiteSpace(s[j])
    decreases |s| - i
  {
    if i < |s| && IsWhiteSpace(s[i]) then SpaceEnd(s, i + 1) else i
  }

  /** The start of the run of white space that ends at `e`. */
  function SpaceStart(s: string, e: nat): (j: nat)
    requires e <= |s|
    ensures j <= e
    ensures forall k :: j <= k < e ==> IsWhiteSpace(s[k])
    ensures j > 0 ==> !IsWhiteSpace(s[j - 1])
  {
    if e > 0 && IsWhiteSpace(s[e - 1]) then SpaceStart(s, e - 1) else e
  }

  /** Number of leading white-space characters. */
  function LeadingSpace(s: string): (n: nat)
    ensures n <= |s|
    ensures forall i :: 0 <= i < n ==> IsWhiteSpace(s[i])
    ensures n < |s| ==> !IsWhiteSpace(s[n])
  {
    SpaceEnd(s, 0)
  }

  /** Number of trailing white-space characters. */
  function TrailingSpace(s: string): (n: nat)
    ensures n <= |s|
    ensures forall i :: |s| - n <= i < |s| ==> IsWhiteSpace(s[i])
    ensures n < |s| ==> !IsWhiteSpace(s[|s| - 1 - n])
  {
    |s| - SpaceStart(s, |s|)
  }

  /** `String.prototype.trim`: the slice of `s` left once the leading and
      the trailing white space are cut off. */
  function Trim(s: string): (r: string)
    ensures |r| <= |s|
    ensures r == "" <==> IsBlank(s)
    ensures r != "" ==> !IsWhiteSpace(r[0]) && !IsWhiteSpace(r[|r| - 1])
    ensures LeadingSpace(s) + |r| <= |s| && r == s[LeadingSpace(s)..LeadingSpace(s) + |r|]
    ensures IsBlank(s[LeadingSpace(s) + |r|..])
  {
    var l, n := LeadingSpace(s), TrailingSpace(s);
    if l == |s| then
      ""
    else
      BlankSuffix(s, |s| - n);
      s[l..|s| - n]
  }

  /** A suffix made of white-space positions is blank. */
  lemma BlankSuffix(s: string, k: nat)
    requires k <= |s| && forall i :: k <= i < |s| ==> IsWhiteSpace(s[i])
    ensures IsBlank(s[k..])
  {
    assert forall i :: 0 <= i < |s| - k ==> s[k..][i] == s[k + i];
  }

  /** The trim of `s` is pinned down by its contract: any slice that starts
      after the leading white space, does not end in white space and leaves
      only white space behind it is that trim. */
  lemma TrimUnique(s: string, r: string)
    requires LeadingSpace(s) + |r| <= |s| && r == s[LeadingSpace(s)..LeadingSpace(s) + |r|]
    requires r != "" ==> !IsWhiteSpace(r[|r| - 1])
    requires IsBlank(s[LeadingSpace(s) + |r|..])
    ensures r == Trim(s)
  {
  }

  /** A string without white space is its own trim. */
  lemma TrimNoSpace(s: string)
    requires forall i :: 0 <= i < |s| ==> !IsWhiteSpace(s[i])
    ensures Trim(s) == s
  {
    assert LeadingSpace(s) == 0;
    assert TrailingSpace(s) == 0;
  }

  /** ASCII `toLowerCase` of one character. */
  function LowerChar(c: char): char {
    if 'A' <= c <= 'Z' then (c as int + 32) as char else c
  }

  /** ASCII `toUpperCase` of one character. */
  function UpperChar(c: char): char {
    if 'a' <= c <= 'z' then (c as int - 32) as char else c
  }

  function ToLower(s: string): (r: string)
    ensures |r| == |s|
    ensures forall i :: 0 <= i < |s| ==> r[i] == LowerChar(s[i])
  {
    seq(|s|, i requires 0 <= i < |s| => LowerChar(s[i]))
  }

  lemma ToLowerAppend(a: string, b: string)
    ensures ToLower(a + b) == ToLower(a) + ToLower(b)
  {
    assert forall i :: 0 <= i < |a + b| ==> ToLower(a + b)[i] == (ToLower(a) + ToLower(b))[i];
  }

  lemma ToLowerSlice(s: string, i: nat)
    requires i <= |s|
    ensures ToLower(s[i..]) == ToLower(s)[i..]
    ensures ToLower(s[..i]) == ToLower(s)[..i]
  {
  }

  /** ASCII lower-casing keeps white space white space and keeps everything
      else non-white. */
  lemma LowerCharSpace(c: char)
    ensures IsWhiteSpace(LowerChar(c)) <==> IsWhiteSpace(c)
  {
  }

  lemma UpperLowerChar(c: char)
    ensures UpperChar(LowerChar(c)) == UpperChar(c)
  {
  }

  /** `Array.prototype.join(d)` on a list of strings. */
  function Join(ws: seq<string>, d: string): string {
    if |ws| == 0 then ""
    else if |ws| == 1 then ws[0]
    else Join(ws[..|ws| - 1], d) + d + ws[|ws| - 1]
  }

  /** Concatenation of a list of strings (join with no separator). */
  function Concat(ws: seq<string>): string {
    if |ws| == 0 then "" else Concat(ws[..|ws| - 1]) + ws[|ws| - 1]
  }

  /** Sum of the lengths of a list of strings. */
  function TotalLength(ws: seq<string>): nat {
    if |ws| == 0 then 0 else TotalLength(ws[..|ws| - 1]) + |ws[|ws| - 1]|
  }

  lemma {:induction false} JoinLength(ws: seq<string>, d: string)
    requires |ws| >= 1
    ensures |Join(ws, d)| == TotalLength(ws) + (|ws| - 1) * |d|
  {
    var n := |ws|;
    if n > 1 {
      var init := ws[..n - 1];
      JoinLength(init, d);
      assert |Join(ws, d)| == |Join(init, d)| + |d| + |ws[n - 1]|;
      assert TotalLength(ws) == TotalLength(init) + |ws[n - 1]|;
      assert (n - 1) * |d| == (n - 2) * |d| + |d|;
    }
  }

  /** Lower-casing a join equals joining the lower-cased pieces with the
      lower-cased separator. */
  lemma {:induction false} ToLowerJoin(ws: seq<string>, d: string)
    ensures ToLower(Join(ws, d)) == Join(seq(|ws|, i requires 0 <= i < |ws| => ToLower(ws[i])), ToLower(d))
  {
    var lw := seq(|ws|, i requires 0 <= i < |ws| => ToLower(ws[i]));
    if |ws| > 1 {
      var init := ws[..|ws| - 1];
      ToLowerJoin(init, d);
      assert seq(|init|, i requires 0 <= i < |init| => ToLower(init[i])) == lw[..|ws| - 1];
      ToLowerAppend(Join(init, d) + d, ws[|ws| - 1]);
      ToLowerAppend(Join(init, d), d);
    }
  }

  function DigitChar(d: nat): char
    requires d < 10
  {
    "0123456789"[d]
  }

  /** Decimal digits of a natural number, most significant first, with no
      leading zero. */
  function NatToString(n: nat): (r: string)
    ensures |r| >= 1
    ensures forall i :: 0 <= i < |r| ==> '0' <= r[i] <= '9'
    ensures n > 0 ==> r[0] != '0'
  {
    if n < 10 then [DigitChar(n)] else NatToString(n / 10) + [DigitChar(n % 10)]
  }

  lemma DigitCharValue(d: nat)
    requires d < 10
    ensures DigitChar(d) as int - '0' as int == d
  {
  }

  /** Value of a string of decimal digits (the inverse of `NatToString`). */
  function DigitsValue(s: string): nat
    requires forall i :: 0 <= i < |s| ==> '0' <= s[i] <= '9'
  {
    if |s| == 0 then 0 else 10 * DigitsValue(s[..|s| - 1]) + (s[|s| - 1] as int - '0' as int)
  }

  lemma {:induction false} NatToStringRoundTrip(n: nat)
    ensures DigitsValue(NatToString(n)) == n
  {
    if n >= 10 {
      NatToStringRoundTrip(n / 10);
      var r := NatToString(n);
      assert r[..|r| - 1] == NatToString(n / 10);
      DigitCharValue(n % 10);
    } else {
      DigitCharValue(n);
    }
  }

  /** Canonical decimal digits: at least one digit, and no leading zero
      unless the number is 0. */
  predicate IsDecimal(s: string) {
    |s| >= 1 && (forall i :: 0 <= i < |s| ==> '0' <= s[i] <= '9') && (|s| > 1 ==> s[0] != '0')
  }

  /** The digits of a natural number are canonical, hold no white space and
      read back as the number. */
  lemma NatDecimal(n: nat)
    ensures IsDecimal(NatToString(n))
    ensures forall k :: 0 <= k < |NatToString(n)| ==> !IsWhiteSpace(NatToString(n)[k])
    ensures DigitsValue(NatToString(n)) == n
  {
    NatToStringRoundTrip(n);
  }

  /** The decimal text of an integer: an optional minus sign followed by the
      canonical digits. It is `BigInt.prototype.toString()`, and
      `Number.prototype.toString()` of integers up to 2^53 in magnitude. */
  function IntToString(i: int): (r: string)
    ensures |r| >= 1
    ensures forall k :: 0 <= k < |r| ==> !IsWhiteSpace(r[k])
    ensures i < 0 <==> r[0] == '-'
    ensures i >= 0 ==> IsDecimal(r) && DigitsValue(r) == i
    ensures i < 0 ==> IsDecimal(r[1..]) && DigitsValue(r[1..]) == -i
  {
    var d := NatToString(if i < 0 then -i else i);
    NatDecimal(if i < 0 then -i else i);
    if i < 0 then
      var r := "-" + d;
      assert r[1..] == d;
      assert forall k :: 1 <= k < |r| ==> r[k] == d[k - 1];
      r
    else
      d
  }
}
