/** Path and display helpers on strings (src/string/index.ts). */
module Strings {
  import opened JsText

  /** `slash`: every backslash becomes a forward slash. */
  function Slash(s: string): (r: string)
    ensures |r| == |s|
    ensures forall i :: 0 <= i < |s| ==> r[i] == (if s[i] == '\\' then '/' else s[i])
    ensures '\\' !in r
  {
    if |s| == 0 then ""
    else [if s[0] == '\\' then '/' else s[0]] + Slash(s[1..])
  }

  /** Replacing backslashes again changes nothing. */
  lemma SlashIdempotent(s: string)
    ensures Slash(Slash(s)) == Slash(s)
  {
  }

  /** Slashing distributes over concatenation, so paths can be slashed piece
      by piece. */
  lemma SlashAppend(a: string, b: string)
    ensures Slash(a + b) == Slash(a) + Slash(b)
  {
    var l, r := Slash(a + b), Slash(a) + Slash(b);
    assert forall i | 0 <= i < |a + b| :: l[i] == r[i];
  }

  /** `truncate(input, length)`. The source's default of 80 for an omitted
      `length` is left to the caller, who always passes one here. */
  function Truncate(input: string, length: int): (r: string)
    ensures input == "" ==> r == ""
    ensures input != "" ==> |r| <= Max3(length)
    ensures input != "" && |Trim(input)| <= Max3(length) ==> r == Trim(input)
    ensures input != "" && |Trim(input)| > Max3(length) ==>
      |r| == Max3(length) && r == Trim(input)[..Max3(length) - 3] + "..."
  {
    if input == "" then input
    else
      var text := Trim(input);
      var maxLength := Max3(length);
      if |text| <= maxLength then text
      else text[..maxLength - 3] + "..."
  }

  /** `Math.max(3, length)`. */
  function Max3(length: int): (m: int)
    ensures m >= 3 && m >= length
  {
    if length > 3 then length else 3
  }

  /** A length of three or less leaves only the ellipsis of an over-long
      text. */
  lemma TruncateShortLimit(input: string, length: int)
    requires length <= 3 && |Trim(input)| > 3
    ensures Truncate(input, length) == "..."
  {
  }

  /** With the source's default `length` of 80, a text is cut to at most 80
      characters, the last three of which are the ellipsis. */
  lemma TruncateDefault(input: string)
    ensures |Truncate(input, 80)| <= 80
    ensures |Trim(input)| > 80 ==> Truncate(input, 80) == Trim(input)[..77] + "..."
  {
  }

  /** Truncating never lengthens the input. */
  lemma TruncateNotLonger(input: string, length: int)
    ensures |Truncate(input, length)| <= |input|
  {
  }
}
