# A verified model of a TypeScript utility library

This project models the core of a small TypeScript utility library in
Dafny and proves properties of the model. The library covers:

- secure random identifiers (`nanoid`);
- case conversions of word lists (`toCamelCase`, `toSnakeCase`, …);
- a conditional class-name builder (`clsx`);
- array helpers, two of which mutate the caller's array in place
  (`toFiltered`, `move`);
- `pick` and `omit` on records;
- two string helpers (`slash`, `truncate`);
- two number helpers (`inRange`, `clamp`);
- JavaScript type tests (`isEmpty`, `isTruthy`, `not`, …).

Each source file has its own Dafny module:

| module | file | source |
|---|---|---|
| `Types` | types.dfy | the value shapes: `JsValue`, `Num`, `Option`, `MaybeArray` |
| `JsText` | jstext.dfy | JavaScript built-ins the library calls: `trim`, ASCII case mapping, `join`, integer `toString` |
| `Assertions` | assertions.dfy | src/assertions/index.ts |
| `Numbers` | number.dfy | src/number/index.ts |
| `Strings` | string.dfy | src/string/index.ts |
| `Casing` | casing.dfy | src/string/casing.ts |
| `Clsx` | clsx.dfy | src/clsx/index.ts |
| `Arrays` | array.dfy | src/array/index.ts |
| `Objects` | object.dfy | src/object.ts |
| `Nanoid` | nanoid.dfy | src/nanoid/index.ts |

The model follows the shape of the code.

- **Loops become methods.** Where the source loops and accumulates
  (`nanoid`, `toClassValue`, `clsx`, `unique`, `range`, `chunk`, `pick`,
  `omit`), the model is a `method` with a loop. Each such method is proved
  against a specification: a reference function (`unique`, `chunk`, `pick`,
  `omit`, `nanoid`, `toClassValue`, `clsx`) or, for `range`, a closed form
  of its elements. The promised properties are lemmas about those
  functions.
- **In-place changes use a class.** `toFiltered` and `move` work on
  `JsArray`, a class whose `items` field is changed with an ECMAScript
  `splice`. Any other holder of the same reference sees the change.
- **Pure code becomes functions and lemmas.** This covers the case
  conversions, the predicates, `slash`, `truncate`, `clamp`, `at`, `first`,
  `last` and `toArray`.
- **Randomness is a parameter.** `nanoid` takes its random source as input:
  `batches[j]` is the result of the (j + 1)-th call to `randomBytes(step)`.

## Model

| member | source | states |
|---|---|---|
| JsText.Trim | src/string/index.ts:17 | the result is the slice of the input that starts after the leading ECMAScript white space, does not end in white space and leaves only white space behind it; it is "" exactly when the input is blank |
| JsText.TrimUnique | src/string/index.ts:17 | any slice that starts after the leading white space, ends in a non-white character (or is empty) and leaves only white space behind it is the trim, so `Trim`'s contract fixes its result |
| JsText.ToLower | src/string/casing.ts:22 | definition: ASCII `toLowerCase`, character by character; the result has the input's length and each character is its lower-case form |
| JsText.Join | src/string/casing.ts:22 | definition: `Array.prototype.join(d)`, "" for no words and the delimiter only between words; `JoinLength` and `ToLowerJoin` state its properties |
| JsText.IntToString | src/clsx/index.ts:9 | the decimal text of an integer has no white space and starts with '-' exactly when the integer is negative; the rest is canonical digits (no leading zero) that read back to the integer's magnitude |
| JsText.NatToStringRoundTrip | src/clsx/index.ts:9 | reading the decimal digits back gives the number |
| JsText.JoinLength | src/string/casing.ts:22 | a join of n ≥ 1 words is as long as the words together plus n−1 delimiters |
| JsText.ToLowerJoin | src/string/casing.ts:22 | lower-casing a join equals joining the lower-cased words with the lower-cased delimiter |
| Assertions.NumberPartition | src/assertions/index.ts:9-21 | `isNumber` excludes NaN; every number is exactly one of `isInteger` and `isFloat` |
| Assertions.EmptyArrayNeedsArray | src/assertions/index.ts:29-31 | `isEmptyArray` is false for every non-array |
| Assertions.IsObjectOnlyObjects | src/assertions/index.ts:34-36 | `isObject` holds only for non-null, non-array, non-function objects |
| Assertions.TypeTestsExclusive | src/assertions/index.ts:4-55 | string, number, array, object and function tests are pairwise exclusive; only null, undefined, booleans, NaN and bigints pass none of them |
| Assertions.IsEmptyExactly | src/assertions/index.ts:44-50 | `isEmpty` holds exactly for null, undefined, blank strings, empty arrays and objects without own keys |
| Assertions.IsEmptyFalseForScalars | src/assertions/index.ts:44-50 | `isEmpty` is false for every number (0 and NaN included), boolean, bigint and function |
| Assertions.TruthyExactly | src/assertions/index.ts:63-65 | the falsy values are exactly 0, "", null, undefined, false, NaN and the bigint 0 |
| Assertions.Not | src/assertions/index.ts:73-75 | the returned predicate is the negation of the argument at every value |
| Assertions.NotNot | src/assertions/index.ts:73-75 | negating twice agrees with the original predicate |
| Assertions.IsString | src/assertions/index.ts:4-6 | definition: the value is a string; `TypeTestsExclusive` relates it to the other tests |
| Assertions.IsNumber | src/assertions/index.ts:9-11 | definition: a number other than NaN, the infinities included; `NumberPartition` states what it admits |
| Assertions.IsInteger | src/assertions/index.ts:14-16 | definition: `isNumber` and `Number.isInteger`, i.e. finite with no fractional part |
| Assertions.IsFloat | src/assertions/index.ts:19-21 | definition: `isNumber` and not `Number.isInteger`, so the infinities are floats |
| Assertions.IsArray | src/assertions/index.ts:24-26 | definition: the value is an array |
| Assertions.IsEmptyArray | src/assertions/index.ts:29-31 | definition: an array of length 0; `EmptyArrayNeedsArray` states that non-arrays fail it |
| Assertions.IsObject | src/assertions/index.ts:34-36 | definition: a non-null object that is not an array; `IsObjectOnlyObjects` states what it excludes |
| Assertions.IsFunction | src/assertions/index.ts:53-55 | definition: `typeof` gives "function" |
| Assertions.IsEmptyObject | src/assertions/index.ts:39-41 | definition: `Object.keys` is empty; it is undefined on null and undefined, where `Object.keys` throws |
| Assertions.IsEmpty | src/assertions/index.ts:44-50 | definition: the source's four tests in their order; `IsEmptyExactly` and `IsEmptyFalseForScalars` state what it holds for |
| Assertions.IsTruthy | src/assertions/index.ts:63-65 | definition: JavaScript's ToBoolean case by case; `TruthyExactly` lists the falsy values |
| Numbers.Clamp | src/number/index.ts:22-24 | the result is at most max; with ordered bounds it is in range, and an in-range value is returned unchanged; with min > max it is max |
| Numbers.ClampFixesInRange | src/number/index.ts:11-24 | with ordered bounds, `clamp` leaves a value alone exactly when `inRange` holds |
| Numbers.ClampIdempotent | src/number/index.ts:22-24 | clamping twice equals clamping once |
| Numbers.ClampMonotone | src/number/index.ts:22-24 | clamping preserves the order of values |
| Numbers.InRange | src/number/index.ts:11-13 | definition: both bounds inclusive; `Clamp` and `ClampFixesInRange` state its link to clamping |
| Strings.Slash | src/string/index.ts:5-7 | same length; every backslash becomes '/', every other character stays; no backslash is left |
| Strings.SlashIdempotent | src/string/index.ts:5-7 | slashing twice equals slashing once |
| Strings.SlashAppend | src/string/index.ts:5-7 | slashing distributes over concatenation |
| Strings.Truncate | src/string/index.ts:15-21 | "" stays ""; otherwise the result is at most max(3, length) long; it is the trimmed text if that fits, else its first max(3, length)−3 characters followed by "..." |
| Strings.TruncateShortLimit | src/string/index.ts:18-20 | a limit of 3 or less leaves only "..." of an over-long text |
| Strings.TruncateNotLonger | src/string/index.ts:15-21 | truncating never lengthens the input |
| Strings.TruncateDefault | src/string/index.ts:15-21 | with the default length 80, the result has at most 80 characters, and an over-long trimmed text keeps its first 77 followed by "..." |
| Casing.UcFirst | src/string/casing.ts:31-34 | "" exactly for a blank string; otherwise the same length, the first character upper-cased and the rest unchanged |
| Casing.JoinLower | src/string/casing.ts:21-23 | definition: the words joined by the delimiter, then lower-cased as a whole |
| Casing.ToCamelCase | src/string/casing.ts:42-48 | definition: the reduce over the words from ""; `CamelCaseShape` and `CamelCaseLength` state its result |
| Casing.ToPascalCase | src/string/casing.ts:56-58 | definition: `toUcFirst` of the camelCase result; `PascalCaseShape` states its result |
| Casing.ToSnakeCase | src/string/casing.ts:66-68 | definition: `join` with "_"; `SnakeCaseShape` and `SnakeKebabLength` state its result |
| Casing.ToKebabCase | src/string/casing.ts:76-78 | definition: `join` with "-"; `KebabCaseShape` and `SnakeKebabLength` state its result |
| Casing.ToSentenceCase | src/string/casing.ts:86-88 | definition: `toUcFirst` of `join` with " "; `SentenceCaseShape` states its result |
| Casing.ToTitleCase | src/string/casing.ts:96-98 | definition: every word through `toUcFirst`, joined by " "; `TitleCaseLength` states its length |
| Casing.CamelCaseShape | src/string/casing.ts:42-48 | camelCase is the first word lower-cased, then every later word with its first character upper-cased and the rest lower-cased, with no separator; empty words add nothing |
| Casing.PascalCaseShape | src/string/casing.ts:56-58 | if the first word is non-empty and does not start with white space, PascalCase capitalizes every word the same way |
| Casing.SnakeCaseShape | src/string/casing.ts:66-68 | snake_case is the lower-cased words joined by "_" |
| Casing.KebabCaseShape | src/string/casing.ts:76-78 | kebab-case is the lower-cased words joined by "-" |
| Casing.CamelCaseLength | src/string/casing.ts:42-48 | camelCase is exactly as long as all words together |
| Casing.SnakeKebabLength | src/string/casing.ts:21-23 | for n ≥ 1 words, snake_case and kebab-case are as long as the words together plus n−1 |
| Casing.SentenceCaseShape | src/string/casing.ts:86-88 | Sentence case is "" exactly when the space-join is blank; otherwise it is that join lower-cased with only its first character upper-cased |
| Casing.TitleCaseLength | src/string/casing.ts:96-98 | with no blank word, Title Case only adds one space between words |
| Casing.NoTokens | src/string/casing.ts:42-98 | an empty word list gives "" in every case |
| Clsx.NumberText | src/clsx/index.ts:9 | the text of a printable number has no white space; the infinities print as "Infinity" and "-Infinity"; an integer of magnitude at most 2^53 prints as canonical digits, after a '-' exactly when negative, that read back to the number |
| Clsx.ClassText | src/clsx/index.ts:4-26 | reference definition of `toClassValue`: the string/number, array and object branches in the source's order, "" otherwise; the lemmas below state what each branch yields |
| Clsx.RecordText | src/clsx/index.ts:18-23 | reference definition of the object loop: each truthy key appended after a space when the text so far is non-empty |
| Clsx.ToClassValue | src/clsx/index.ts:4-26 | the loops and the recursion compute `ClassText`, the value the rules below describe |
| Clsx.ArrayNames | src/clsx/index.ts:11-17 | the array loop joins the rendered elements, putting a space only between non-empty pieces |
| Clsx.RecordNames | src/clsx/index.ts:18-23 | the object loop appends the keys whose values are truthy |
| Clsx.Clsx | src/clsx/index.ts:32-43 | `clsx(a1..an)` equals `toClassValue([a1..an])`, which is the non-empty renderings joined by single spaces |
| Clsx.ClsxPieces | src/clsx/index.ts:32-43 | rendering the argument list as an array is joining the non-empty pieces by single spaces |
| Clsx.JoinPiecesSkipsEmpty | src/clsx/index.ts:11-17 | the separator invariant: the accumulated text is the non-empty pieces joined by one space, so no leading, trailing or doubled spaces appear |
| Clsx.FalsyContributesNothing | src/clsx/index.ts:7-10 | a falsy value renders as "" |
| Clsx.OtherValuesContributeNothing | src/clsx/index.ts:4-26 | booleans, null, undefined, bigints and functions render as "" |
| Clsx.ScalarContribution | src/clsx/index.ts:7-10 | a string renders as its trimmed text; a non-zero integer of magnitude at most 2^53 renders as its decimal text; the infinities render as "Infinity" and "-Infinity" |
| Clsx.JoinPiecesAppend | src/clsx/index.ts:11-17 | rendering a concatenation of pieces joins the two renderings |
| Clsx.ArrayPiecesAppend | src/clsx/index.ts:11-17 | the rendered pieces of a concatenation are the concatenated pieces |
| Clsx.Flatten | src/clsx/index.ts:11-17 | nesting flattens: an inner array renders as if its elements stood in the outer array |
| Clsx.RecordContribution | src/clsx/index.ts:18-23 | an object renders as its truthy keys in order, joined by spaces; empty keys before the first non-empty key vanish |
| Clsx.RecordContributionPlain | src/clsx/index.ts:18-23 | with no empty key, an object renders exactly as its truthy keys joined by single spaces |
| Arrays.ToArray | src/array/index.ts:8-11 | null and undefined give [], an array is returned as is, anything else is wrapped in a one-element array |
| Arrays.Deduplicated | src/array/index.ts:25 | reference definition of `Array.from(new Set(value))`: each item appended unless already kept |
| Arrays.DeduplicatedBy | src/array/index.ts:27-31 | reference definition of the reduce: each item appended unless a kept item matches it |
| Arrays.FindIndex | src/array/index.ts:28 | the index of the first kept item that matches, or −1 exactly when none matches |
| Arrays.UniqueBy | src/array/index.ts:27-31 | the reduce computes `DeduplicatedBy`: an item is appended only when no kept item matches it |
| Arrays.Unique | src/array/index.ts:24-25 | the set-based path computes `Deduplicated` |
| Arrays.DeduplicatedElements | src/array/index.ts:25 | the result holds exactly the input's values |
| Arrays.DeduplicatedDistinct | src/array/index.ts:25 | the result has no duplicates |
| Arrays.DeduplicatedKeepsFirst | src/array/index.ts:25 | the result is the first occurrence of every value, in input order |
| Arrays.UniqueOverloadsAgree | src/array/index.ts:23-32 | with equality as the matcher, both overloads give the same result |
| Arrays.DeduplicatedBySubsequence | src/array/index.ts:27-31 | the matcher result is a subsequence of the input |
| Arrays.DeduplicatedByKeeps | src/array/index.ts:27-31 | no kept item matches one kept before it; every input item is kept or matched by a kept item |
| Arrays.At | src/array/index.ts:42-47 | defined exactly for −length ≤ index < length; a non-negative index reads that element, a negative one counts from the end |
| Arrays.First | src/array/index.ts:65-67 | undefined for [], otherwise the first element |
| Arrays.Last | src/array/index.ts:55-57 | undefined for [], otherwise the last element |
| Arrays.Range | src/array/index.ts:75-91 | element i is start + i·step; every element is below stop; the result is empty when start ≥ stop; with step > 0 one more step would reach stop |
| Arrays.RangeTo | src/array/index.ts:79-80 | `range(stop)` is 0, 1, …, stop−1 (empty when stop ≤ 0) |
| Arrays.RangeLength | src/array/index.ts:86-89 | these conditions fix the length at ceil((stop − start) / step) |
| Arrays.Chunks | src/array/index.ts:130-137 | reference definition of the chunks: blocks of `size` elements, the last possibly shorter |
| Arrays.ChunkSlot | src/array/index.ts:132-133 | definition: the array slot `Math.floor(index / size)` names; none for size 0 (the "NaN"/"Infinity" keys) and for a negative size after index 0, slot 0 for index 0 (the key "-0" reads as "0") |
| Arrays.Chunk | src/array/index.ts:130-137 | a positive size gives the reference chunks; size 0 gives []; a negative size gives only the first element, in one chunk |
| Arrays.ChunkStep | src/array/index.ts:132-134 | one reduce step: the item joins the last chunk while it has room, and otherwise opens a new chunk |
| Arrays.SlotIsDivision | src/array/index.ts:132 | `Math.floor(index / size)` names exactly that chunk |
| Arrays.ChunksFlatten | src/array/index.ts:130-137 | the chunks concatenate back to the input |
| Arrays.ChunksSizes | src/array/index.ts:130-137 | every chunk but the last has exactly `size` elements; the last has 1 to `size` |
| Arrays.ChunksCount | src/array/index.ts:130-137 | there are ceil(n / size) chunks |
| Arrays.JsArray.Splice | src/array/index.ts:119-120 | the contents become the ECMAScript splice of the old contents: relative start clamped, delete count clamped, insertion in place |
| Arrays.SpliceOf | src/array/index.ts:119-120 | reference definition of `splice` on contents: relative start, delete count clamped to 0..what is left, insertion at the start |
| Arrays.RelativeStart | src/array/index.ts:119-120 | ECMAScript's relative start of `splice`: negative counts from the end, clamped to 0..length; the result never exceeds the length |
| Arrays.Survivors | src/array/index.ts:101-104 | reference definition of what the backward loop keeps of each suffix, with the predicate seeing the array as it is at that moment |
| Arrays.ToFiltered | src/array/index.ts:101-106 | the backward loop leaves the same array holding the survivors of the predicate, which sees each element, its original index and the live array |
| Arrays.ToFilteredIsFilter | src/array/index.ts:101-106 | when the predicate ignores its array argument, the survivors are exactly the accepted elements by original index, in order |
| Arrays.Move | src/array/index.ts:115-122 | an empty array or from == to leaves the contents unchanged; otherwise the read element is spliced out at `from` and back in at `to`; the same array is returned |
| Arrays.MoveOf | src/array/index.ts:115-122 | reference definition of the contents after `move`: unchanged for [] or from == to, otherwise the two splices with the element read at `from` |
| Arrays.MoveInRange | src/array/index.ts:118-120 | with both indices in range: same length, the moved element at `to`, same multiset, and the other elements keep their relative order |
| Arrays.MoveFromOutside | src/array/index.ts:118-120 | with `from` outside the array, undefined is inserted; past the end the array grows by one, below 0 its length stays |
| Objects.KeyInObject | src/object.ts:9-14 | true only for objects |
| Objects.KeyInObjectRecord | src/object.ts:9-14 | on an object, key membership in the record it denotes; false on anything else |
| Objects.Picked | src/object.ts:20-29 | reference definition: the listed keys the input has, with the input's values |
| Objects.Omitted | src/object.ts:35-44 | reference definition: the input without the listed keys |
| Objects.Pick | src/object.ts:20-29 | the result has exactly the requested keys the input has, with the input's values |
| Objects.Omit | src/object.ts:35-44 | the result has exactly the input's keys that were not requested, with unchanged values; the input is a value and stays as it was |
| Objects.PickOmitPartition | src/object.ts:20-44 | for the same keys, `pick` and `omit` have disjoint key sets that together make up the input |
| Objects.PickOmitIdempotent | src/object.ts:20-44 | picking again with the same keys changes nothing, and neither does omitting again |
| Objects.OmitIsPickOfRest | src/object.ts:35-44 | omitting keys is picking the complement |
| Objects.PickKeyShapes | src/object.ts:25 | for both `pick` and `omit` a single key behaves as a one-key list; null or undefined keys pick nothing and omit nothing |
| Nanoid.Log2Floor | src/nanoid/index.ts:17 | 2^k ≤ n < 2^(k+1) |
| Nanoid.Mask | src/nanoid/index.ts:17 | the mask of a valid alphabet lies in 1..255 |
| Nanoid.MaskShape | src/nanoid/index.ts:17 | mask + 1 is a power of two; mask ≥ size − 1 and mask + 1 ≤ 2·size; with size ≥ 2, halving mask + 1 would miss the last index |
| Nanoid.MaskValues | src/nanoid/index.ts:17 | the mask is one of 1, 3, 7, …, 255 |
| Nanoid.MaskByteValue | src/nanoid/index.ts:17 | the byte the mask is applied as has the mask's value |
| Nanoid.MaskKeepsIndex | src/nanoid/index.ts:23 | a byte no larger than the mask indexes itself, so every alphabet index can occur |
| Nanoid.MaskedAtMost | src/nanoid/index.ts:23 | `byte & mask` never exceeds the mask |
| Nanoid.Step | src/nanoid/index.ts:18 | the batch size is the exact ceiling of 8·mask·length / (5·size) |
| Nanoid.StepBounds | src/nanoid/index.ts:18-20 | length 0 gives step 0; a positive length gives step ≥ 1 |
| Nanoid.Accepted | src/nanoid/index.ts:22-25 | reference definition of the characters a run of bytes yields: byte after byte, the character at `byte & mask` when that index is inside the alphabet |
| Nanoid.Generate | src/nanoid/index.ts:12-28 | the size check fails exactly for size 0 or > 255. Otherwise the id has exactly `length` characters and is the first `length` accepted characters of all bytes in order. Every character comes from the alphabet. The last batch drawn is the first one that completes the id, and length ≤ 0 draws nothing |
| Nanoid.Fill | src/nanoid/index.ts:22-25 | the inner loop appends the accepted characters of the bytes it reads, never exceeds `length`, and stops early only when `length` is reached |
| Nanoid.OneBatch | src/nanoid/index.ts:20-26 | one outer pass keeps the id equal to the accepted characters of a byte prefix of the batches |
| Nanoid.AcceptedFromAlphabet | src/nanoid/index.ts:23-24 | every id character is in the alphabet, and there are never more characters than bytes |
| Nanoid.AllAccepted | src/nanoid/index.ts:23-24 | when the mask stays inside the alphabet, no byte is rejected |
| Nanoid.PowerOfTwoAcceptsAll | src/nanoid/index.ts:17-24 | an alphabet whose size is a power of two, 2 or more, gets mask size − 1 and accepts every byte |
| Nanoid.SingleCharacterMask | src/nanoid/index.ts:17 | a one-character alphabet gets mask 1, so byte 1 is rejected |
| Nanoid.DefaultParameters | src/nanoid/index.ts:3-18 | the default alphabet has 64 characters; the mask is 63, so every byte names a character; a length-21 id draws batches of 34 bytes, and any one batch yields 34 ≥ 21 characters |

## Left out

- The `words` tokenizer (src/string/casing.ts:3-13) is not modelled: it is a Unicode property-class regular expression. The case functions take its word list as their argument.
- Case mapping is ASCII only. Unicode `toUpperCase`/`toLowerCase` can change a string's length (ß), which ASCII mapping never does, so the length lemmas hold only under that simplification.
- `randomBytes` (src/nanoid/index.ts:1, :21) is the `batches` parameter. Uniformity and collision behaviour are statistical and not stated.
- Nanoid.Generate: the `SourceExhausted` result has no counterpart in the source. It stands for a finite supply of batches that runs out, where the source would keep drawing.
- Nanoid.Step: the source computes `1.6 * mask * length / size` in floating point. The model uses the exact rational ceiling, which can differ from the floating-point result on rounding.
- Nanoid.Log2Floor: `Math.log2` is floating point; the model uses the exact integer logarithm.
- Nanoid.Generate: `length` is an integer; a non-integer `length` is not modelled.
- `abbreviate` (src/number/index.ts:36-68) is not modelled: it is floating-point formatting (`toFixed`, re-parsing with `Number`).
- src/promise/index.ts (`sleep`, `retry`, `tryCatch`) is not part of this model: it is timers and asynchronous effects.
- `isBrowser` probes the environment and `isRegex` tests `instanceof RegExp`; neither is modelled. `isFunction` is only the datatype tag `Function`.
- Numbers.InRange and Numbers.Clamp are over integers: NaN and the infinities of `number` are not covered.
- Arrays.Range and Arrays.At are over integers; fractional starts, steps and indices are not modelled.
- Arrays.Range: the source loops forever when start < stop and step ≤ 0, so those inputs are excluded by the precondition.
- Arrays.Range: values are unbounded integers, while the source adds doubles. `current += step` rounds back to `current` when `step` is below half the spacing of doubles at `current`, and the source then never terminates: `range(2**53, 2**53 + 2)` loops forever because `2**53 + 1 === 2**53`, where the model returns [2^53, 2^53 + 1]. Such inputs are not modelled.
- Clsx.ToClassValue: it requires every number it prints to be an infinity or an integer of at most 2^53 in magnitude, where `toString` prints the exact digits. Integers above 2^53 are not modelled, because `toString` prints the shortest digits that read back to the double there (`(2**64).toString()` is "18446744073709552000"); fractions and exponent notation are not modelled either.
- Clsx.NumberText: it is `Number.prototype.toString()` only for the infinities and for integers of at most 2^53 in magnitude, which is all `Printable` admits; fractions, larger integers and exponent notation are not modelled.
- Clsx.RecordNames: an object is its list of own enumerable string-keyed entries in enumeration order. The list is not required to have distinct keys, which a real object always has. Inherited enumerable keys, which `for … in` would also visit, are not represented.
- Objects.KeyInObject: `key in val` also sees inherited keys; the model only sees own keys.
- Objects.Pick and Objects.Omit treat the input as a finite map. Inherited keys, symbol keys and the result's key order are not modelled.
- Negative zero is not distinguished from zero in `Num`; no modelled operation tells them apart.
- Nanoid.Generate: a Dafny `string` is a sequence of Unicode scalar values, while `alphabets.length` and `alphabets[index]` count UTF-16 code units. An alphabet with a character outside the Basic Multilingual Plane has a larger size in the source, and the source can emit half of a surrogate pair; the model does neither.
- Strings.Truncate: `slice` counts UTF-16 code units and can split a surrogate pair; the model counts characters. A fractional `length` is not modelled: `length` is an integer.
- Casing.UcFirst: `str[0]` is one UTF-16 code unit, so the source upper-cases half of a surrogate pair where the model takes a whole character.
- Arrays.Chunk: `size` is an integer. The source accepts any number, and a fractional size such as 2.5 groups items through `Math.floor(index / size)` into chunks of unequal length; that case is not modelled.
- Arrays.Unique: the model compares items with Dafny's structural equality. `new Set` uses SameValueZero, which compares objects and arrays by reference, so two distinct but equal-looking objects both survive in the source and merge in the model.
- Arrays.ToFiltered: the predicate is a pure function of the element, its index and the current contents. The source hands it the live array, which it could mutate; a predicate with effects is not modelled.
- Arrays.Move: `from` and `to` are integers. NaN and fractional indices, which the source accepts, are not modelled: with NaN `from === to` fails, `array[NaN]` is undefined and `splice` reads NaN as 0, so `move([x, y], NaN, NaN)` gives `[undefined, y]`; a fractional `from` reads undefined while `splice` truncates it.
