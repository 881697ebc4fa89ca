/** Case conversions (src/string/casing.ts). Each transform is a function of
    the token list `words(str)` produces; the Unicode tokenizer itself is not
    part of this model, so `ws` below stands for `words(str)`. Case mapping is
    ASCII `toLowerCase`/`toUpperCase`. */
module Casing {
  import opened JsText
  import Types
  import Assertions

  /** `toUcFirst`: "" for an empty or blank string, otherwise the first
      character upper-cased and the rest untouched. */
  function UcFirst(s: string): (r: string)
    ensures r == "" <==> IsBlank(s)
    ensures r != "" ==> |r| == |s| && r[0] == UpperChar(s[0]) && r[1..] == s[1..]
  {
    if Assertions.IsEmpty(Types.Str(s)) then "" else [UpperChar(s[0])] + s[1..]
  }

  /** `join(str, d)`: the tokens joined by `d`, then lower-cased as a whole. */
  function JoinLower(ws: seq<string>, d: string): string {
    ToLower(Join(ws, d))
  }

  /** One step of the `reduce` in `toCamelCase`: empty tokens are skipped,
      token 0 is lower-cased (dropping the accumulator), later tokens are
      appended with their first character upper-cased and the rest
      lower-cased. */
  function CamelStep(acc: string, next: string, i: nat): string {
    if next == "" then acc
    else if i == 0 then ToLower(next)
    else acc + [UpperChar(next[0])] + ToLower(next[1..])
  }

  /** `toCamelCase`: the reduce over the tokens, from "". */
  function ToCamelCase(ws: seq<string>): string {
    if |ws| == 0 then "" else CamelStep(ToCamelCase(ws[..|ws| - 1]), ws[|ws| - 1], |ws| - 1)
  }

  /** `toPascalCase`. */
  function ToPascalCase(ws: seq<string>): string {
    UcFirst(ToCamelCase(ws))
  }

  /** `toSnakeCase`. */
  function ToSnakeCase(ws: seq<string>): string {
    JoinLower(ws, "_")
  }

  /** `toKebabCase`. */
  function ToKebabCase(ws: seq<string>): string {
    JoinLower(ws, "-")
  }

  /** `toSentenceCase`. */
  function ToSentenceCase(ws: seq<string>): string {
    UcFirst(JoinLower(ws, " "))
  }

  /** `toTitleCase`: every token through `toUcFirst`, joined by spaces. */
  function ToTitleCase(ws: seq<string>): string {
    Join(seq(|ws|, i requires 0 <= i < |ws| => UcFirst(ws[i])), " ")
  }

  /** A token as it appears after the first in camel case: first character
      upper-cased, the rest lower-cased; nothing for an empty token. */
  function Capitalized(w: string): string {
    if w == "" then "" else [UpperChar(w[0])] + ToLower(w[1..])
  }

  function LowerTokens(ws: seq<string>): seq<string> {
    seq(|ws|, i requires 0 <= i < |ws| => ToLower(ws[i]))
  }

  function CapitalizedTail(ws: seq<string>): seq<string>
    requires |ws| >= 1
  {
    seq(|ws| - 1, k requires 0 <= k < |ws| - 1 => Capitalized(ws[k + 1]))
  }

  /** camelCase is the first token lower-cased followed, without separator,
      by every later token capitalized; empty tokens add nothing. */
  lemma {:induction false} CamelCaseShape(ws: seq<string>)
    requires |ws| >= 1
    ensures ToCamelCase(ws) == ToLower(ws[0]) + Concat(CapitalizedTail(ws))
  {
    var n := |ws|;
    if n > 1 {
      var init := ws[..n - 1];
      CamelCaseShape(init);
      assert CapitalizedTail(ws)[..n - 2] == CapitalizedTail(init);
      assert CapitalizedTail(ws)[n - 2] == Capitalized(ws[n - 1]);
    }
  }

  /** With non-empty tokens the first of which does not start with white
      space, PascalCase capitalizes every token (`toUcFirst(toCamelCase(s))`). */
  lemma PascalCaseShape(ws: seq<string>)
    requires |ws| >= 1 && ws[0] != "" && !IsWhiteSpace(ws[0][0])
    ensures ToPascalCase(ws) == Capitalized(ws[0]) + Concat(CapitalizedTail(ws))
  {
    CamelCaseShape(ws);
    var c := ToCamelCase(ws);
    LowerCharSpace(ws[0][0]);
    assert c[0] == LowerChar(ws[0][0]);
    assert !IsBlank(c);
    UpperLowerChar(ws[0][0]);
    ToLowerSlice(ws[0], 1);
    assert c[1..] == ToLower(ws[0])[1..] + Concat(CapitalizedTail(ws));
  }

  /** snake_case is the lower-cased tokens joined by "_". */
  lemma SnakeCaseShape(ws: seq<string>)
    ensures ToSnakeCase(ws) == Join(LowerTokens(ws), "_")
  {
    ToLowerJoin(ws, "_");
    assert ToLower("_") == "_";
    assert LowerTokens(ws) == seq(|ws|, i requires 0 <= i < |ws| => ToLower(ws[i]));
  }

  /** kebab-case is the lower-cased tokens joined by "-". */
  lemma KebabCaseShape(ws: seq<string>)
    ensures ToKebabCase(ws) == Join(LowerTokens(ws), "-")
  {
    ToLowerJoin(ws, "-");
    assert ToLower("-") == "-";
    assert LowerTokens(ws) == seq(|ws|, i requires 0 <= i < |ws| => ToLower(ws[i]));
  }

  /** ASCII case mapping keeps lengths: camelCase is exactly as long as all
      tokens together. */
  lemma {:induction false} CamelCaseLength(ws: seq<string>)
    ensures |ToCamelCase(ws)| == TotalLength(ws)
  {
    if |ws| > 0 {
      CamelCaseLength(ws[..|ws| - 1]);
      if |ws| == 1 {
        assert TotalLength(ws[..0]) == 0;
      } else if ws[|ws| - 1] != "" {
        assert |ToLower(ws[|ws| - 1][1..])| == |ws[|ws| - 1]| - 1;
      }
    }
  }

  /** snake_case and kebab-case add exactly one separator between tokens. */
  lemma SnakeKebabLength(ws: seq<string>)
    requires |ws| >= 1
    ensures |ToSnakeCase(ws)| == |ToKebabCase(ws)| == TotalLength(ws) + |ws| - 1
  {
    JoinLength(ws, "_");
    JoinLength(ws, "-");
  }

  /** Title case keeps every character after the first of each token as it
      was; with no blank token it only adds one space between tokens. */
  lemma {:induction false} TitleCaseLength(ws: seq<string>)
    requires |ws| >= 1
    requires forall i :: 0 <= i < |ws| ==> !IsBlank(ws[i])
    ensures |ToTitleCase(ws)| == TotalLength(ws) + |ws| - 1
  {
    var us := seq(|ws|, i requires 0 <= i < |ws| => UcFirst(ws[i]));
    JoinLength(us, " ");
    SameLengths(ws, us);
  }

  lemma {:induction false} SameLengths(ws: seq<string>, us: seq<string>)
    requires |ws| == |us|
    requires forall i :: 0 <= i < |ws| ==> |ws[i]| == |us[i]|
    ensures TotalLength(ws) == TotalLength(us)
  {
    if |ws| > 0 {
      SameLengths(ws[..|ws| - 1], us[..|us| - 1]);
    }
  }

  /** Sentence case is the space-join lower-cased with only its first
      character upper-cased; it is "" exactly when the join is blank. */
  lemma SentenceCaseShape(ws: seq<string>)
    ensures ToSentenceCase(ws) == "" <==> IsBlank(Join(ws, " "))
    ensures ToSentenceCase(ws) != "" ==>
      var j := Join(ws, " ");
      |ToSentenceCase(ws)| == |j| && ToSentenceCase(ws)[0] == UpperChar(j[0])
      && ToSentenceCase(ws)[1..] == ToLower(j[1..])
  {
    var j := Join(ws, " ");
    forall i | 0 <= i < |j| ensures IsWhiteSpace(ToLower(j)[i]) <==> IsWhiteSpace(j[i]) {
      LowerCharSpace(j[i]);
    }
    if ToSentenceCase(ws) != "" {
      UpperLowerChar(j[0]);
      ToLowerSlice(j, 1);
    }
  }

  /** An empty token list (the empty string) gives "" in every case. */
  lemma NoTokens()
    ensures ToCamelCase([]) == "" && ToPascalCase([]) == "" && ToSnakeCase([]) == ""
    ensures ToKebabCase([]) == "" && ToSentenceCase([]) == "" && ToTitleCase([]) == ""
  {
  }
}
