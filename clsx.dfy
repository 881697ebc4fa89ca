/** Conditional class-name building (src/clsx/index.ts). `ClassText` is the
    value `toClassValue` computes, stated as a function; the two methods
    follow the source's accumulating loops and are proved to compute it. */
module Clsx {
  import opened Types
  import opened JsText
  import Assertions

  /** A number whose `toString()` this model can spell: the infinities, and
      integers of magnitude at most 2^53, every one of which is a double that
      `toString()` prints as its exact decimal digits. (Larger doubles print
      as the shortest digits that read back to them, padded with zeros, and
      from 10^21 on in exponent notation; fractions are not modelled.) */
  predicate Printable(n: Num) {
    n.PosInf? || n.NegInf?
    || (n.Finite? && n.r.Floor as real == n.r
        && -9007199254740992.0 <= n.r <= 9007199254740992.0)
  }

  /** Every number `toClassValue` would print, down through nested arrays,
      is printable. Object values are only tested for truthiness. */
  predicate Renderable(v: JsValue) {
    match v
    case Number(n) => n.NaN? || Printable(n)
    case Array(items) => forall i :: 0 <= i < |items| ==> Renderable(items[i])
    case _ => true
  }

  /** `Number.prototype.toString()` of a printable number: "Infinity" and
      "-Infinity" for the infinities; for an integer, its canonical decimal
      digits (after a '-' exactly when it is negative), which read back to
      the number. */
  function NumberText(n: Num): (r: string)
    requires Printable(n)
    ensures r != "" && forall k :: 0 <= k < |r| ==> !IsWhiteSpace(r[k])
    ensures n.PosInf? ==> r == "Infinity"
    ensures n.NegInf? ==> r == "-Infinity"
    ensures n.Finite? && n.r >= 0.0 ==> IsDecimal(r) && DigitsValue(r) as real == n.r
    ensures n.Finite? && n.r < 0.0 ==>
      r[0] == '-' && IsDecimal(r[1..]) && DigitsValue(r[1..]) as real == -n.r
  {
    match n
    case PosInf => "Infinity"
    case NegInf => "-Infinity"
    case Finite(r) => IntToString(r.Floor)
  }

  /** `value.toString()` for a string or a non-NaN number. */
  function ScalarText(v: JsValue): string
    requires Assertions.IsString(v) || Assertions.IsNumber(v)
    requires Renderable(v)
  {
    if v.Str? then v.s else NumberText(v.n)
  }

  /** One step of the array loop and of `clsx`: an empty piece is skipped, a
      space goes in only when something is already there. */
  function AppendPiece(acc: string, piece: string): string {
    if piece == "" then acc
    else if acc == "" then piece
    else acc + " " + piece
  }

  /** The array loop over already rendered pieces. */
  function JoinPieces(ps: seq<string>): string {
    if |ps| == 0 then "" else AppendPiece(JoinPieces(ps[..|ps| - 1]), ps[|ps| - 1])
  }

  /** One step of the object loop for a truthy entry: the key itself is
      appended, even an empty one, after a space when something is already
      there. */
  function AppendKey(acc: string, key: string): string {
    (if acc != "" then acc + " " else acc) + key
  }

  /** The object loop: `for (const key in value)`, skipping falsy values. */
  function RecordText(entries: seq<(string, JsValue)>): string {
    if |entries| == 0 then ""
    else
      var acc := RecordText(entries[..|entries| - 1]);
      var e := entries[|entries| - 1];
      if Assertions.IsTruthy(e.1) then AppendKey(acc, e.0) else acc
  }

  /** `toClassValue(value)`. */
  function ClassText(v: JsValue): string
    requires Renderable(v)
    decreases v, 1
  {
    if Assertions.IsString(v) || Assertions.IsNumber(v) then
      (if Assertions.IsTruthy(v) then Trim(ScalarText(v)) else "")
    else if Assertions.IsArray(v) then
      JoinPieces(ArrayPieces(v.items))
    else if Assertions.IsObject(v) then
      RecordText(v.entries)
    else
      ""
  }

  /** The rendered pieces of the elements of an array. */
  function ArrayPieces(items: seq<JsValue>): (ps: seq<string>)
    requires forall i :: 0 <= i < |items| ==> Renderable(items[i])
    ensures |ps| == |items|
    decreases Array(items), 0
  {
    seq(|items|, i requires 0 <= i < |items| => ClassText(items[i]))
  }

  /** `toClassValue`, with the source's loops and recursion. */
  method ToClassValue(value: JsValue) returns (names: string)
    requires Renderable(value)
    ensures names == ClassText(value)
    decreases value, 1
  {
    names := "";
    if Assertions.IsString(value) || Assertions.IsNumber(value) {
      if Assertions.IsTruthy(value) {
        names := names + Trim(ScalarText(value));
      }
    } else if Assertions.IsArray(value) {
      names := ArrayNames(value.items);
    } else if Assertions.IsObject(value) {
      names := RecordNames(value.entries);
    }
  }

  /** The array branch of `toClassValue`: each element rendered recursively,
      the non-empty results joined by single spaces. */
  method ArrayNames(items: seq<JsValue>) returns (names: string)
    requires forall i :: 0 <= i < |items| ==> Renderable(items[i])
    ensures names == JoinPieces(ArrayPieces(items))
    decreases Array(items), 0
  {
    ghost var ps := ArrayPieces(items);
    names := "";
    for i := 0 to |items|
      invariant names == JoinPieces(ps[..i])
    {
      var temp := ToClassValue(items[i]);
      assert ps[..i + 1][..i] == ps[..i] && temp == ps[i];
      ghost var before := names;
      if temp != "" {
        if names != "" {
          names := names + " ";
        }
        names := names + temp;
      }
      assert names == AppendPiece(before, temp);
    }
    assert ps[..|items|] == ps;
  }

  /** The object branch of `toClassValue`: the keys whose values are truthy,
      in order. */
  method RecordNames(entries: seq<(string, JsValue)>) returns (names: string)
    ensures names == RecordText(entries)
  {
    names := "";
    for i := 0 to |entries|
      invariant names == RecordText(entries[..i])
    {
      assert entries[..i + 1][..i] == entries[..i];
      ghost var before := names;
      if Assertions.IsTruthy(entries[i].1) {
        if names != "" {
          names := names + " ";
        }
        names := names + entries[i].0;
        assert names == AppendKey(before, entries[i].0);
      }
    }
    assert entries[..|entries|] == entries;
  }

  /** `clsx(...inputs)`. */
  method Clsx(inputs: seq<JsValue>) returns (result: string)
    requires forall i :: 0 <= i < |inputs| ==> Renderable(inputs[i])
    ensures result == ClassText(Array(inputs))
    ensures result == Join(NonEmpty(ArrayPieces(inputs)), " ")
  {
    ghost var ps := ArrayPieces(inputs);
    result := "";
    for i := 0 to |inputs|
      invariant result == JoinPieces(ps[..i])
    {
      assert ps[..i + 1][..i] == ps[..i];
      var arg := inputs[i];
      ghost var before := result;
      if Assertions.IsTruthy(arg) {
        var temp := ToClassValue(arg);
        assert temp == ps[i];
        if temp != "" {
          if result != "" {
            result := result + " ";
          }
          result := result + temp;
        }
        assert result == AppendPiece(before, ps[i]);
      } else {
        FalsyContributesNothing(arg);
        assert ps[i] == "";
      }
    }
    assert ps[..|inputs|] == ps;
    ClsxPieces(inputs);
  }

  /** The rendered arguments, joined as `clsx` joins them. */
  lemma ClsxPieces(inputs: seq<JsValue>)
    requires forall i :: 0 <= i < |inputs| ==> Renderable(inputs[i])
    ensures ClassText(Array(inputs)) == JoinPieces(ArrayPieces(inputs))
    ensures JoinPieces(ArrayPieces(inputs)) == Join(NonEmpty(ArrayPieces(inputs)), " ")
  {
    JoinPiecesSkipsEmpty(ArrayPieces(inputs));
  }

  /** The non-empty pieces, in order. */
  function NonEmpty(ps: seq<string>): (r: seq<string>)
    ensures forall i :: 0 <= i < |r| ==> r[i] != ""
  {
    if |ps| == 0 then []
    else if ps[|ps| - 1] == "" then NonEmpty(ps[..|ps| - 1])
    else NonEmpty(ps[..|ps| - 1]) + [ps[|ps| - 1]]
  }

  /** A falsy value (0, "", NaN, null, undefined, false, 0n) renders as "". */
  lemma FalsyContributesNothing(v: JsValue)
    requires Renderable(v) && !Assertions.IsTruthy(v)
    ensures ClassText(v) == ""
  {
  }

  /** Booleans, null, undefined, bigints and functions fall through every
      branch and contribute nothing, truthy or not. */
  lemma OtherValuesContributeNothing(v: JsValue)
    requires v.Bool? || v.Null? || v.Undefined? || v.BigInt? || v.Function?
    ensures ClassText(v) == ""
  {
  }

  /** A string contributes its trimmed text, so a blank string contributes
      nothing; a non-zero printable integer contributes its decimal text, and
      the infinities contribute "Infinity" and "-Infinity". */
  lemma ScalarContribution(v: JsValue)
    requires Renderable(v) && (v.Str? || v.Number?)
    ensures v.Str? ==> ClassText(v) == Trim(v.s)
    ensures v.Number? && v.n.Finite? && v.n.r != 0.0 ==> ClassText(v) == IntToString(v.n.r.Floor)
    ensures v == Number(PosInf) ==> ClassText(v) == "Infinity"
    ensures v == Number(NegInf) ==> ClassText(v) == "-Infinity"
  {
    if v.Number? && !v.n.NaN? && v.n != Finite(0.0) {
      NumberContribution(v.n);
    }
  }

  /** A non-zero printable number renders as its `toString()`. */
  lemma NumberContribution(n: Num)
    requires Printable(n) && n != Finite(0.0)
    ensures ClassText(Number(n)) == NumberText(n)
  {
    var v, t := Number(n), NumberText(n);
    assert Assertions.IsNumber(v) && Assertions.IsTruthy(v);
    assert ClassText(v) == Trim(ScalarText(v));
    assert ScalarText(v) == t;
    TrimNoSpace(t);
  }

  /** Joining a list of non-empty strings is non-empty. */
  lemma JoinNonEmpty(ws: seq<string>, d: string)
    requires |ws| >= 1 && ws[|ws| - 1] != ""
    ensures Join(ws, d) != ""
  {
  }

  /** The separator invariant: pieces are joined by one space, and only
      between non-empty pieces. */
  lemma {:induction false} JoinPiecesSkipsEmpty(ps: seq<string>)
    ensures JoinPieces(ps) == Join(NonEmpty(ps), " ")
  {
    if |ps| > 0 {
      var init := ps[..|ps| - 1];
      JoinPiecesSkipsEmpty(init);
      var ne := NonEmpty(init);
      if ps[|ps| - 1] != "" && |ne| > 0 {
        JoinNonEmpty(ne, " ");
        assert (ne + [ps[|ps| - 1]])[..|ne|] == ne;
      }
    }
  }

  lemma AppendPieceAssociative(x: string, y: string, z: string)
    ensures AppendPiece(AppendPiece(x, y), z) == AppendPiece(x, AppendPiece(y, z))
  {
  }

  /** Rendering a concatenation of pieces joins the two renderings. */
  lemma {:induction false} JoinPiecesAppend(a: seq<string>, b: seq<string>)
    ensures JoinPieces(a + b) == AppendPiece(JoinPieces(a), JoinPieces(b))
  {
    if |b| > 0 {
      var init := b[..|b| - 1];
      JoinPiecesAppend(a, init);
      assert (a + b)[..|a + b| - 1] == a + init;
      AppendPieceAssociative(JoinPieces(a), JoinPieces(init), b[|b| - 1]);
    } else {
      assert a + b == a;
    }
  }

  lemma RenderableAppend(a: seq<JsValue>, b: seq<JsValue>)
    requires forall i :: 0 <= i < |a| ==> Renderable(a[i])
    requires forall i :: 0 <= i < |b| ==> Renderable(b[i])
    ensures forall i :: 0 <= i < |a + b| ==> Renderable((a + b)[i])
  {
    var ab := a + b;
    forall i | 0 <= i < |ab| ensures Renderable(ab[i]) {
      if i < |a| {
        assert ab[i] == a[i];
      } else {
        assert ab[i] == b[i - |a|];
      }
    }
  }

  lemma ArrayPiecesAppend(a: seq<JsValue>, b: seq<JsValue>)
    requires forall i :: 0 <= i < |a| ==> Renderable(a[i])
    requires forall i :: 0 <= i < |b| ==> Renderable(b[i])
    ensures forall i :: 0 <= i < |a + b| ==> Renderable((a + b)[i])
    ensures ArrayPieces(a + b) == ArrayPieces(a) + ArrayPieces(b)
  {
    RenderableAppend(a, b);
    PiecesPointwise(a, b);
  }

  lemma PiecesPointwise(a: seq<JsValue>, b: seq<JsValue>)
    requires forall k :: 0 <= k < |a + b| ==> Renderable((a + b)[k])
    requires forall i :: 0 <= i < |a| ==> Renderable(a[i])
    requires forall i :: 0 <= i < |b| ==> Renderable(b[i])
    ensures forall i :: 0 <= i < |a + b| ==> ArrayPieces(a + b)[i] == (ArrayPieces(a) + ArrayPieces(b))[i]
  {
    var l, pa, pb := ArrayPieces(a + b), ArrayPieces(a), ArrayPieces(b);
    forall i | 0 <= i < |l| ensures l[i] == (pa + pb)[i] {
      if i < |a| {
        PiecesLeft(a, b, i);
      } else {
        PiecesRight(a, b, i - |a|);
      }
    }
  }

  lemma PiecesLeft(a: seq<JsValue>, b: seq<JsValue>, i: nat)
    requires forall k :: 0 <= k < |a + b| ==> Renderable((a + b)[k])
    requires forall k :: 0 <= k < |a| ==> Renderable(a[k])
    requires i < |a|
    ensures ArrayPieces(a + b)[i] == ArrayPieces(a)[i]
  {
    assert (a + b)[i] == a[i];
  }

  lemma PiecesRight(a: seq<JsValue>, b: seq<JsValue>, i: nat)
    requires forall k :: 0 <= k < |a + b| ==> Renderable((a + b)[k])
    requires forall k :: 0 <= k < |b| ==> Renderable(b[k])
    requires i < |b|
    ensures ArrayPieces(a + b)[|a| + i] == ArrayPieces(b)[i]
  {
    assert (a + b)[|a| + i] == b[i];
  }

  /** Nesting flattens: an inner array renders exactly as if its elements
      stood in the outer array. */
  lemma Flatten(xs: seq<JsValue>, ys: seq<JsValue>, zs: seq<JsValue>)
    requires forall i :: 0 <= i < |xs| ==> Renderable(xs[i])
    requires forall i :: 0 <= i < |ys| ==> Renderable(ys[i])
    requires forall i :: 0 <= i < |zs| ==> Renderable(zs[i])
    ensures Renderable(Array(xs + [Array(ys)] + zs)) && Renderable(Array(xs + ys + zs))
    ensures ClassText(Array(xs + [Array(ys)] + zs)) == ClassText(Array(xs + ys + zs))
  {
    var inner := Array(ys);
    assert Renderable(inner);
    ArrayPiecesAppend(xs, [inner]);
    ArrayPiecesAppend(xs + [inner], zs);
    ArrayPiecesAppend(xs, ys);
    ArrayPiecesAppend(xs + ys, zs);
    var X, Y, Z := ArrayPieces(xs), ArrayPieces(ys), ArrayPieces(zs);
    assert ArrayPieces([inner]) == [JoinPieces(Y)];
    assert ClassText(Array(xs + [inner] + zs)) == JoinPieces(X + [JoinPieces(Y)] + Z);
    assert ClassText(Array(xs + ys + zs)) == JoinPieces(X + Y + Z);
    JoinPiecesAppend(X + [JoinPieces(Y)], Z);
    JoinPiecesAppend(X, [JoinPieces(Y)]);
    JoinPiecesAppend(X + Y, Z);
    JoinPiecesAppend(X, Y);
    assert JoinPieces([JoinPieces(Y)]) == JoinPieces(Y);
  }

  /** The keys of the truthy entries, in enumeration order. */
  function TruthyKeys(entries: seq<(string, JsValue)>): seq<string> {
    if |entries| == 0 then []
    else
      var e := entries[|entries| - 1];
      TruthyKeys(entries[..|entries| - 1]) + (if Assertions.IsTruthy(e.1) then [e.0] else [])
  }

  /** The keys after the leading run of empty keys. */
  function DropLeadingEmpty(keys: seq<string>): seq<string> {
    if |keys| > 0 && keys[0] == "" then DropLeadingEmpty(keys[1..]) else keys
  }

  /** The object loop over the truthy keys only, from a given start. */
  function KeyFold(acc: string, keys: seq<string>): string {
    if |keys| == 0 then acc else AppendKey(KeyFold(acc, keys[..|keys| - 1]), keys[|keys| - 1])
  }

  lemma {:induction false} RecordTextIsKeyFold(entries: seq<(string, JsValue)>)
    ensures RecordText(entries) == KeyFold("", TruthyKeys(entries))
  {
    if |entries| > 0 {
      var init := entries[..|entries| - 1];
      RecordTextIsKeyFold(init);
      var k := TruthyKeys(init);
      if Assertions.IsTruthy(entries[|entries| - 1].1) {
        assert (k + [entries[|entries| - 1].0])[..|k|] == k;
      } else {
        assert k + [] == k;
      }
    }
  }

  lemma {:induction false} KeyFoldAppend(acc: string, a: seq<string>, b: seq<string>)
    ensures KeyFold(acc, a + b) == KeyFold(KeyFold(acc, a), b)
  {
    if |b| > 0 {
      KeyFoldAppend(acc, a, b[..|b| - 1]);
      assert (a + b)[..|a + b| - 1] == a + b[..|b| - 1];
    } else {
      assert a + b == a;
    }
  }

  /** Once something has been written, every further key comes after exactly
      one space. */
  lemma {:induction false} KeyFoldAfter(acc: string, keys: seq<string>)
    requires acc != "" && |keys| >= 1
    ensures KeyFold(acc, keys) == acc + " " + Join(keys, " ")
  {
    if |keys| > 1 {
      KeyFoldAfter(acc, keys[..|keys| - 1]);
    }
  }

  lemma {:induction false} JoinCons(w: string, ws: seq<string>, d: string)
    requires |ws| >= 1
    ensures Join([w] + ws, d) == w + d + Join(ws, d)
  {
    if |ws| > 1 {
      JoinCons(w, ws[..|ws| - 1], d);
      assert ([w] + ws)[..|ws|] == [w] + ws[..|ws| - 1];
    } else {
      assert [w] + ws == [w, ws[0]];
    }
  }

  /** An object contributes its truthy keys in enumeration order, joined by
      single spaces; empty keys before the first non-empty one vanish, later
      ones are still preceded by a space. */
  lemma {:induction false} RecordContribution(entries: seq<(string, JsValue)>)
    ensures ClassText(Object(entries)) == Join(DropLeadingEmpty(TruthyKeys(entries)), " ")
  {
    RecordTextIsKeyFold(entries);
    KeyFoldDropsLeadingEmpty(TruthyKeys(entries));
  }

  lemma {:induction false} KeyFoldDropsLeadingEmpty(keys: seq<string>)
    ensures KeyFold("", keys) == Join(DropLeadingEmpty(keys), " ")
    decreases |keys|
  {
    if |keys| > 0 {
      KeyFoldAppend("", [keys[0]], keys[1..]);
      assert [keys[0]] + keys[1..] == keys;
      assert KeyFold("", [keys[0]]) == keys[0] by {
        assert [keys[0]][..0] == [];
      }
      if keys[0] == "" {
        KeyFoldDropsLeadingEmpty(keys[1..]);
      } else if |keys| > 1 {
        KeyFoldAfter(keys[0], keys[1..]);
        JoinCons(keys[0], keys[1..], " ");
      }
    }
  }

  /** With every truthy key non-empty, an object contributes exactly its
      truthy keys joined by single spaces. */
  lemma RecordContributionPlain(entries: seq<(string, JsValue)>)
    requires forall i :: 0 <= i < |entries| ==> entries[i].0 != ""
    ensures ClassText(Object(entries)) == Join(TruthyKeys(entries), " ")
  {
    RecordContribution(entries);
    TruthyKeysNonEmpty(entries);
  }

  lemma {:induction false} TruthyKeysNonEmpty(entries: seq<(string, JsValue)>)
    requires forall i :: 0 <= i < |entries| ==> entries[i].0 != ""
    ensures forall i :: 0 <= i < |TruthyKeys(entries)| ==> TruthyKeys(entries)[i] != ""
  {
    if |entries| > 0 {
      TruthyKeysNonEmpty(entries[..|entries| - 1]);
    }
  }
}
