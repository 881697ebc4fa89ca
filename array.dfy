/** Array helpers (src/array/index.ts). The helpers that build a new array
    (`unique`, `range`, `chunk`) are methods over sequences proved against
    specification functions; `toFiltered` and `move` change the caller's
    array in place and work on a `JsArray` object. */
module Arrays {
  import opened Types
  import Assertions

  // ---------------------------------------------------------------- toArray

  /** `toArray`: null and undefined become [], an array stays as it is, any
      other value is wrapped. */
  function ToArray<T>(x: MaybeArray<T>): (r: seq<T>)
    ensures x.Nullish? ==> r == []
    ensures x.Many? ==> r == x.elements
    ensures x.Single? ==> r == [x.item]
  {
    match x
    case Nullish => []
    case Single(item) => [item]
    case Many(elements) => elements
  }

  // ----------------------------------------------------------------- unique

  /** `a` can be obtained from `b` by deleting elements. */
  ghost predicate IsSubsequence<T>(a: seq<T>, b: seq<T>)
    decreases |b|
  {
    if |a| == 0 then true
    else if |b| == 0 then false
    else (a[|a| - 1] == b[|b| - 1] && IsSubsequence(a[..|a| - 1], b[..|b| - 1]))
         || IsSubsequence(a, b[..|b| - 1])
  }

  /** The `reduce` of `unique(value, equals)`: an item is appended when no
      item kept so far matches it (`equals(kept, item)`). */
  function DeduplicatedBy<T>(s: seq<T>, equals: (T, T) -> bool): seq<T> {
    if |s| == 0 then []
    else
      var acc := DeduplicatedBy(s[..|s| - 1], equals);
      var item := s[|s| - 1];
      if exists j :: 0 <= j < |acc| && equals(acc[j], item) then acc else acc + [item]
  }

  /** `Array.from(new Set(value))`: insertion into a set keeps the first
      occurrence of every value, in order. */
  function Deduplicated<T(==)>(s: seq<T>): seq<T> {
    if |s| == 0 then []
    else
      var acc := Deduplicated(s[..|s| - 1]);
      if s[|s| - 1] in acc then acc else acc + [s[|s| - 1]]
  }

  /** Reference definition: the elements whose value does not occur earlier
      in the input. */
  function FirstOccurrences<T(==)>(s: seq<T>): seq<T> {
    if |s| == 0 then []
    else
      var init := s[..|s| - 1];
      FirstOccurrences(init) + (if s[|s| - 1] in init then [] else [s[|s| - 1]])
  }

  /** `acc.findIndex(e => equals(e, item))`. */
  method FindIndex<T>(acc: seq<T>, item: T, equals: (T, T) -> bool) returns (index: int)
    ensures -1 <= index < |acc|
    ensures index == -1 <==> forall j :: 0 <= j < |acc| ==> !equals(acc[j], item)
    ensures index >= 0 ==> equals(acc[index], item)
    ensures index >= 0 ==> forall j :: 0 <= j < index ==> !equals(acc[j], item)
  {
    index := 0;
    while index < |acc|
      invariant 0 <= index <= |acc|
      invariant forall j :: 0 <= j < index ==> !equals(acc[j], item)
    {
      if equals(acc[index], item) {
        return;
      }
      index := index + 1;
    }
    index := -1;
  }

  /** `unique(value, equals)`. */
  method UniqueBy<T>(value: seq<T>, equals: (T, T) -> bool) returns (acc: seq<T>)
    ensures acc == DeduplicatedBy(value, equals)
  {
    acc := [];
    for i := 0 to |value|
      invariant acc == DeduplicatedBy(value[..i], equals)
    {
      assert value[..i + 1][..i] == value[..i];
      var index := FindIndex(acc, value[i], equals);
      if index == -1 {
        acc := acc + [value[i]];
      }
    }
    assert value[..|value|] == value;
  }

  /** `unique(value)`, with the set the source builds. */
  method Unique<T(==)>(value: seq<T>) returns (r: seq<T>)
    ensures r == Deduplicated(value)
  {
    var seen: set<T> := {};
    r := [];
    for i := 0 to |value|
      invariant r == Deduplicated(value[..i])
      invariant forall x :: x in seen <==> x in r
    {
      assert value[..i + 1][..i] == value[..i];
      if value[i] !in seen {
        seen := seen + {value[i]};
        r := r + [value[i]];
      }
    }
    assert value[..|value|] == value;
  }

  /** The values kept by `unique(value)` are exactly the input's values. */
  lemma {:induction false} DeduplicatedElements<T>(s: seq<T>)
    ensures forall x :: x in Deduplicated(s) <==> x in s
  {
    if |s| > 0 {
      DeduplicatedElements(s[..|s| - 1]);
      assert s == s[..|s| - 1] + [s[|s| - 1]];
    }
  }

  /** `unique(value)` has no duplicates. */
  lemma {:induction false} DeduplicatedDistinct<T>(s: seq<T>)
    ensures forall i, j :: 0 <= i < j < |Deduplicated(s)| ==> Deduplicated(s)[i] != Deduplicated(s)[j]
  {
    if |s| > 0 {
      DeduplicatedDistinct(s[..|s| - 1]);
    }
  }

  /** `unique(value)` keeps an element exactly when its value does not occur
      earlier: the first occurrence of every value, in input order. */
  lemma {:induction false} DeduplicatedKeepsFirst<T>(s: seq<T>)
    ensures Deduplicated(s) == FirstOccurrences(s)
  {
    if |s| > 0 {
      var init := s[..|s| - 1];
      DeduplicatedKeepsFirst(init);
      DeduplicatedElements(init);
    }
  }

  /** The two overloads agree when the matcher is equality. */
  lemma {:induction false} UniqueOverloadsAgree<T>(s: seq<T>)
    ensures Deduplicated(s) == DeduplicatedBy(s, (a: T, b: T) => a == b)
  {
    if |s| > 0 {
      UniqueOverloadsAgree(s[..|s| - 1]);
      var acc := Deduplicated(s[..|s| - 1]);
      if s[|s| - 1] in acc {
        var j :| 0 <= j < |acc| && acc[j] == s[|s| - 1];
        assert (((a: T, b: T) => a == b))(acc[j], s[|s| - 1]);
      }
    }
  }

  /** `unique(value, equals)` is a subsequence of its input. */
  lemma {:induction false} DeduplicatedBySubsequence<T>(s: seq<T>, equals: (T, T) -> bool)
    ensures IsSubsequence(DeduplicatedBy(s, equals), s)
  {
    if |s| > 0 {
      var init := s[..|s| - 1];
      DeduplicatedBySubsequence(init, equals);
      var acc := DeduplicatedBy(init, equals);
      var r := DeduplicatedBy(s, equals);
      if r == acc {
        SubsequenceExtend(acc, init, s[|s| - 1]);
        assert init + [s[|s| - 1]] == s;
      } else {
        assert r[..|r| - 1] == acc;
      }
    }
  }

  lemma SubsequenceExtend<T>(a: seq<T>, b: seq<T>, x: T)
    requires IsSubsequence(a, b)
    ensures IsSubsequence(a, b + [x])
  {
    assert (b + [x])[..|b|] == b;
  }

  /** No kept item matches an item kept before it, and every input item is
      kept or matched by a kept item. */
  lemma {:induction false} DeduplicatedByKeeps<T>(s: seq<T>, equals: (T, T) -> bool)
    ensures var r := DeduplicatedBy(s, equals);
      forall i, j :: 0 <= i < j < |r| ==> !equals(r[i], r[j])
    ensures var r := DeduplicatedBy(s, equals);
      forall k :: 0 <= k < |s| ==> s[k] in r || exists j :: 0 <= j < |r| && equals(r[j], s[k])
  {
    if |s| > 0 {
      var init := s[..|s| - 1];
      DeduplicatedByKeeps(init, equals);
      var acc := DeduplicatedBy(init, equals);
      var r := DeduplicatedBy(s, equals);
      assert forall k :: 0 <= k < |init| ==> s[k] == init[k];
      assert forall j :: 0 <= j < |acc| ==> r[j] == acc[j];
    }
  }

  // ------------------------------------------------------ at, first, last

  /** `at(array, index)`: `None` stands for `undefined`; a negative index
      counts from the end. */
  function At<T>(a: seq<T>, index: int): (r: Option<T>)
    ensures r.Some? <==> -|a| <= index < |a|
    ensures r.Some? && index >= 0 ==> r.value == a[index]
    ensures r.Some? && index < 0 ==> r.value == a[|a| + index]
  {
    var len := |a|;
    if len == 0 then None
    else
      var i := if index < 0 then index + len else index;
      if 0 <= i < len then Some(a[i]) else None
  }

  /** `first(array)` = `at(array, 0)`. */
  function First<T>(a: seq<T>): (r: Option<T>)
    ensures r == if |a| == 0 then None else Some(a[0])
  {
    At(a, 0)
  }

  /** `last(array)` = `at(array, -1)`. */
  function Last<T>(a: seq<T>): (r: Option<T>)
    ensures r == if |a| == 0 then None else Some(a[|a| - 1])
  {
    At(a, -1)
  }

  // ------------------------------------------------------------------ range

  /** `range(start, stop, step)`. The source loops forever when
      `start < stop` and `step <= 0`; those inputs are excluded. */
  method Range(start: int, stop: int, step: int) returns (xs: seq<int>)
    requires step > 0 || start >= stop
    ensures forall i :: 0 <= i < |xs| ==> xs[i] == start + i * step
    ensures forall i :: 0 <= i < |xs| ==> xs[i] < stop
    ensures start >= stop ==> xs == []
    ensures step > 0 ==> start + |xs| * step >= stop
  {
    xs := [];
    var current := start;
    while current < stop
      invariant step > 0 || (start >= stop && current == start)
      invariant current == start + |xs| * step
      invariant forall i :: 0 <= i < |xs| ==> xs[i] == start + i * step
      invariant forall i :: 0 <= i < |xs| ==> xs[i] < stop
      invariant start >= stop ==> xs == []
      decreases if current < stop then stop - current else 0
    {
      xs := xs + [current];
      current := current + step;
    }
  }

  /** `range(stop)`: start 0, step 1. */
  method RangeTo(stop: int) returns (xs: seq<int>)
    ensures |xs| == if stop > 0 then stop else 0
    ensures forall i :: 0 <= i < |xs| ==> xs[i] == i
  {
    xs := Range(0, stop, 1);
    if |xs| > 0 {
      assert xs[|xs| - 1] < stop;
    }
  }

  /** The three conditions `Range` ensures fix the length: the elements of
      `range(start, stop, step)` number ceil((stop - start) / step). */
  lemma RangeLength(start: int, stop: int, step: int, n: nat)
    requires step > 0 && start < stop
    requires n >= 1 && start + (n - 1) * step < stop <= start + n * step
    ensures n == (stop - start + step - 1) / step
  {
    var d := stop - start + step - 1;
    assert (n - 1) * step == n * step - step;
    DivUnique(d, step, n, d - n * step);
  }

  // ------------------------------------------------------------------ chunk

  /** Reference definition of the chunks: blocks of `size` elements, the
      last one possibly shorter. */
  function Chunks<T>(s: seq<T>, size: nat): seq<seq<T>>
    requires size >= 1
    decreases |s|
  {
    if |s| == 0 then []
    else if |s| <= size then [s]
    else [s[..size]] + Chunks(s[size..], size)
  }

  /** Concatenation of a list of chunks. */
  function Flatten<T>(ss: seq<seq<T>>): seq<T> {
    if |ss| == 0 then [] else ss[0] + Flatten(ss[1..])
  }

  /** The array slot `Math.floor(index / size)` names, or `None` when it is
      not an array index: with size 0 the key is "NaN" or "Infinity", with a
      negative size it is negative from index 1 on (and -0, that is "0", at
      index 0). */
  function ChunkSlot(index: nat, size: int): Option<nat> {
    if size > 0 then Some(index / size)
    else if size < 0 && index == 0 then Some(0)
    else None
  }

  /** `chunk(array, size)`, the `reduce` that pushes each item into the chunk
      its slot names. */
  method Chunk<T>(xs: seq<T>, size: int) returns (acc: seq<seq<T>>)
    ensures size >= 1 ==> acc == Chunks(xs, size)
    ensures size == 0 ==> acc == []
    ensures size < 0 ==> acc == if |xs| == 0 then [] else [[xs[0]]]
  {
    acc := [];
    for index := 0 to |xs|
      invariant size >= 1 ==> acc == Chunks(xs[..index], size)
      invariant size == 0 ==> acc == []
      invariant size < 0 ==> acc == if index == 0 then [] else [[xs[0]]]
    {
      var slot := ChunkSlot(index, size);
      if size >= 1 {
        ChunkStep(xs[..index], xs[index], size);
        SlotIsDivision(xs[..index], size);
        assert xs[..index + 1] == xs[..index] + [xs[index]];
      }
      if slot.Some? {
        var k := slot.value;
        if k < |acc| {
          acc := acc[k := acc[k] + [xs[index]]];
        } else if k == |acc| {
          acc := acc + [[xs[index]]];
        } else {
          assert false;
        }
      }
    }
    assert xs[..|xs|] == xs;
  }

  /** Where the next element of a chunk list goes: the last chunk while it
      has room, one past the end once it is full (or there is none). */
  function NextSlot<T>(c: seq<seq<T>>, size: nat): (k: nat)
    ensures k <= |c|
  {
    if |c| == 0 || |c[|c| - 1]| == size then |c| else |c| - 1
  }

  /** One step of `chunk` with a positive size: the element goes into the
      chunk `NextSlot` names. */
  lemma ChunkStep<T>(p: seq<T>, x: T, size: nat)
    requires size >= 1
    ensures var c := Chunks(p, size); var k := NextSlot(c, size);
      (k < |c| ==> Chunks(p + [x], size) == c[k := c[k] + [x]])
      && (k == |c| ==> Chunks(p + [x], size) == c + [[x]])
  {
    var c := Chunks(p, size);
    if |c| == 0 || |c[|c| - 1]| == size {
      ChunksSnocFull(p, x, size);
    } else {
      ChunksSnocPartial(p, x, size);
    }
  }

  /** The slot `Math.floor(|p| / size)` that `chunk` computes is `NextSlot`
      of the chunks so far. */
  lemma SlotIsDivision<T>(p: seq<T>, size: nat)
    requires size >= 1
    ensures |p| / size == NextSlot(Chunks(p, size), size)
  {
    if |p| == 0 {
      DivUnique(0, size, 0, 0);
    } else {
      var c := Chunks(p, size);
      ChunksTotal(p, size);
      ChunksSizes(p, size);
      SlotOfLength(|p|, size, |c|, |c[|c| - 1]|);
    }
  }

  /** The slot of the element after `n` chunks whose last one holds `last`
      elements: a new chunk when the last one is full, else the last one. */
  lemma SlotOfLength(len: nat, size: nat, n: nat, last: nat)
    requires size >= 1 && n >= 1 && 1 <= last <= size
    requires len == (n - 1) * size + last
    ensures len / size == if last == size then n else n - 1
  {
    if last == size {
      assert (n - 1) * size + size == n * size;
      DivUnique(len, size, n, 0);
    } else {
      DivUnique(len, size, n - 1, last);
    }
  }

  /** Euclidean division is determined by its quotient-remainder
      decomposition. */
  lemma DivUnique(x: int, size: int, q: int, r: int)
    requires size >= 1 && 0 <= r < size && x == q * size + r
    ensures x / size == q
  {
    var q', r' := x / size, x % size;
    assert x == q' * size + r';
    LessMul(q', q + 1, size);
    LessMul(q, q' + 1, size);
  }

  lemma LessMul(a: int, b: int, c: int)
    requires c > 0 && a * c < b * c
    ensures a < b
  {
    assert (b - a) * c == b * c - a * c;
  }

  /** Appending one element to input whose last chunk is full (or that has
      no chunk yet) opens a new chunk. */
  lemma {:induction false} ChunksSnocFull<T>(p: seq<T>, x: T, size: nat)
    requires size >= 1
    requires var c := Chunks(p, size); |c| == 0 || |c[|c| - 1]| == size
    ensures Chunks(p + [x], size) == Chunks(p, size) + [[x]]
    decreases |p|
  {
    if |p| == 0 {
      assert [] + [x] == [x];
    } else if |p| == size {
      assert (p + [x])[..size] == p;
      assert (p + [x])[size..] == [x];
    } else if |p| > size {
      var rest := p[size..];
      var cr := Chunks(rest, size);
      assert Chunks(p, size) == [p[..size]] + cr;
      ChunksSnocFull(rest, x, size);
      assert (p + [x])[..size] == p[..size];
      assert (p + [x])[size..] == rest + [x];
      assert ([p[..size]] + cr) + [[x]] == [p[..size]] + (cr + [[x]]);
    }
  }

  /** Appending one element to input whose last chunk has room extends that
      chunk. */
  lemma {:induction false} ChunksSnocPartial<T>(p: seq<T>, x: T, size: nat)
    requires size >= 1
    requires var c := Chunks(p, size); |c| > 0 && |c[|c| - 1]| != size
    ensures var c := Chunks(p, size);
      Chunks(p + [x], size) == c[|c| - 1 := c[|c| - 1] + [x]]
    decreases |p|
  {
    if |p| > size {
      var rest := p[size..];
      var cr := Chunks(rest, size);
      assert Chunks(p, size) == [p[..size]] + cr;
      ChunksSnocPartial(rest, x, size);
      assert (p + [x])[..size] == p[..size];
      assert (p + [x])[size..] == rest + [x];
      assert ([p[..size]] + cr)[|cr| := cr[|cr| - 1] + [x]] == [p[..size]] + cr[|cr| - 1 := cr[|cr| - 1] + [x]];
    }
  }

  /** All chunks but the last are full: the input length is that many full
      chunks plus the last one. */
  lemma {:induction false} ChunksTotal<T>(s: seq<T>, size: nat)
    requires size >= 1 && |s| > 0
    ensures var c := Chunks(s, size);
      |c| > 0 && |s| == (|c| - 1) * size + |c[|c| - 1]|
    decreases |s|
  {
    if |s| > size {
      var cr := Chunks(s[size..], size);
      ChunksTotal(s[size..], size);
      assert (|cr| - 1) * size + size == |cr| * size;
    }
  }

  /** `chunk` produces ceil(|s| / size) chunks. */
  lemma ChunksCount<T>(s: seq<T>, size: nat)
    requires size >= 1
    ensures |Chunks(s, size)| == (|s| + size - 1) / size
  {
    var c := Chunks(s, size);
    if |s| == 0 {
      DivUnique(size - 1, size, 0, size - 1);
    } else {
      ChunksTotal(s, size);
      ChunksSizes(s, size);
      assert (|c| - 1) * size + size == |c| * size;
      DivUnique(|s| + size - 1, size, |c|, |c[|c| - 1]| - 1);
    }
  }

  /** The chunks concatenate back to the input. */
  lemma {:induction false} ChunksFlatten<T>(s: seq<T>, size: nat)
    requires size >= 1
    ensures Flatten(Chunks(s, size)) == s
    decreases |s|
  {
    if |s| > size {
      ChunksFlatten(s[size..], size);
      assert ([s[..size]] + Chunks(s[size..], size))[1..] == Chunks(s[size..], size);
    } else if |s| > 0 {
      assert [s][1..] == [];
    }
  }

  /** Every chunk but the last holds exactly `size` elements, the last one
      between 1 and `size`. */
  lemma {:induction false} ChunksSizes<T>(s: seq<T>, size: nat)
    requires size >= 1
    ensures var c := Chunks(s, size);
      forall i :: 0 <= i < |c| - 1 ==> |c[i]| == size
    ensures var c := Chunks(s, size);
      |c| > 0 ==> 1 <= |c[|c| - 1]| <= size
    decreases |s|
  {
    if |s| > size {
      ChunksSizes(s[size..], size);
    }
  }

  // --------------------------------------------------- in-place operations

  /** ECMAScript's relative start index: negative counts from the end,
      clamped to [0, len]. */
  function RelativeStart(start: int, len: nat): (k: nat)
    ensures k <= len
  {
    if start < 0 then (if len + start < 0 then 0 else len + start)
    else if start > len then len
    else start
  }

  /** `Array.prototype.splice(start, deleteCount, ...insert)` on the
      contents: delete count clamped to what is there, then the insertion. */
  function SpliceOf<T>(s: seq<T>, start: int, deleteCount: int, insert: seq<T>): seq<T> {
    var k := RelativeStart(start, |s|);
    var dc := if deleteCount < 0 then 0 else if deleteCount > |s| - k then |s| - k else deleteCount;
    s[..k] + insert + s[k + dc..]
  }

  /** A JavaScript array whose contents are changed in place; callers that
      hold the same reference see every change. */
  class JsArray<T> {
    var items: seq<T>

    constructor (items: seq<T>)
      ensures this.items == items
    {
      this.items := items;
    }

    /** `this.splice(start, deleteCount, ...insert)`. */
    method Splice(start: int, deleteCount: int, insert: seq<T>)
      modifies this
      ensures items == SpliceOf(old(items), start, deleteCount, insert)
    {
      items := SpliceOf(items, start, deleteCount, insert);
    }
  }

  /** What `toFiltered` leaves of `orig[i..]` once the loop has walked down
      from the end to index `i`: the predicate sees each element, its
      original index, and the array as it is at that moment (the untouched
      prefix followed by what survived so far). */
  function Survivors<T>(orig: seq<T>, keep: (T, int, seq<T>) -> bool, i: nat): seq<T>
    requires i <= |orig|
    decreases |orig| - i
  {
    if i == |orig| then []
    else
      var rest := Survivors(orig, keep, i + 1);
      if keep(orig[i], i, orig[..i + 1] + rest) then [orig[i]] + rest else rest
  }

  /** `toFiltered(array, predicate)`: walks from the last index down and
      splices out every element the predicate rejects; returns the same
      array. */
  method ToFiltered<T>(xs: JsArray<T>, keep: (T, int, seq<T>) -> bool) returns (r: JsArray<T>)
    modifies xs
    ensures r == xs
    ensures xs.items == Survivors(old(xs.items), keep, 0)
  {
    ghost var orig := xs.items;
    var i := |xs.items| - 1;
    while i >= 0
      invariant -1 <= i < |orig|
      invariant xs.items == orig[..i + 1] + Survivors(orig, keep, i + 1)
    {
      if !keep(xs.items[i], i, xs.items) {
        assert xs.items[..i] == orig[..i];
        xs.Splice(i, 1, []);
        assert xs.items == orig[..i] + Survivors(orig, keep, i + 1);
      } else {
        assert orig[..i + 1] == orig[..i] + [orig[i]];
      }
      i := i - 1;
    }
    r := xs;
  }

  /** Reference definition: `Array.prototype.filter` with a predicate of the
      element and its index. */
  function FilterIndexed<T>(s: seq<T>, keep: (T, int) -> bool): seq<T> {
    if |s| == 0 then []
    else
      FilterIndexed(s[..|s| - 1], keep) + (if keep(s[|s| - 1], |s| - 1) then [s[|s| - 1]] else [])
  }

  /** When the predicate does not look at the array argument, `toFiltered`
      leaves exactly the elements it accepts by original index, in order. */
  lemma ToFilteredIsFilter<T>(orig: seq<T>, keep: (T, int, seq<T>) -> bool, q: (T, int) -> bool)
    requires forall x, j, a :: keep(x, j, a) == q(x, j)
    ensures Survivors(orig, keep, 0) == FilterIndexed(orig, q)
  {
    FilterSplit(orig, keep, q, 0);
    assert orig[..0] == [];
  }

  lemma {:induction false} FilterSplit<T>(orig: seq<T>, keep: (T, int, seq<T>) -> bool, q: (T, int) -> bool, i: nat)
    requires forall x, j, a :: keep(x, j, a) == q(x, j)
    requires i <= |orig|
    ensures FilterIndexed(orig, q) == FilterIndexed(orig[..i], q) + Survivors(orig, keep, i)
    decreases |orig| - i
  {
    if i == |orig| {
      assert orig[..i] == orig;
    } else {
      FilterSplit(orig, keep, q, i + 1);
      var p := orig[..i + 1];
      assert p[..i] == orig[..i] && p[i] == orig[i];
      var piece := if q(orig[i], i) then [orig[i]] else [];
      assert FilterIndexed(p, q) == FilterIndexed(orig[..i], q) + piece;
      IgnoresArray(keep, q, orig[i], i, p + Survivors(orig, keep, i + 1));
      assert Survivors(orig, keep, i) == piece + Survivors(orig, keep, i + 1);
    }
  }

  lemma IgnoresArray<T>(keep: (T, int, seq<T>) -> bool, q: (T, int) -> bool, x: T, j: int, a: seq<T>)
    requires forall x, j, a :: keep(x, j, a) == q(x, j)
    ensures keep(x, j, a) == q(x, j)
  {
  }

  /** The contents `move(array, from, to)` leaves: nothing changes for an
      empty array or equal indices; otherwise the element read at `from`
      (undefined when `from` is not a valid index) is spliced out at `from`
      and back in at `to`. */
  function MoveOf(s: seq<JsValue>, from: int, to: int): seq<JsValue> {
    if |s| == 0 || from == to then s
    else
      var item := if 0 <= from < |s| then s[from] else Undefined;
      SpliceOf(SpliceOf(s, from, 1, []), to, 0, [item])
  }

  /** `move(array, from, to)`: returns the same array. */
  method Move(xs: JsArray<JsValue>, from: int, to: int) returns (r: JsArray<JsValue>)
    modifies xs
    ensures r == xs
    ensures xs.items == MoveOf(old(xs.items), from, to)
  {
    r := xs;
    if Assertions.IsEmptyArray(Array(xs.items)) {
      return;
    }
    if from == to {
      return;
    }
    var item := if 0 <= from < |xs.items| then xs.items[from] else Undefined;
    xs.Splice(from, 1, []);
    xs.Splice(to, 0, [item]);
  }

  /** Removing index `i`. */
  function RemoveAt<T>(s: seq<T>, i: nat): seq<T>
    requires i < |s|
  {
    s[..i] + s[i + 1..]
  }

  /** With both indices in range, `move` keeps the length and the multiset of
      elements, puts the moved element at `to`, and the other elements keep
      their relative order. */
  lemma MoveInRange(s: seq<JsValue>, from: int, to: int)
    requires 0 <= from < |s| && 0 <= to < |s|
    ensures var m := MoveOf(s, from, to);
      |m| == |s| && m[to] == s[from] && multiset(m) == multiset(s)
      && RemoveAt(m, to) == RemoveAt(s, from)
  {
    if from != to {
      MoveShape(s, from, to);
      Reinsert(s, from, to);
    }
  }

  /** Removing an element and inserting it elsewhere. */
  lemma Reinsert<T>(s: seq<T>, from: nat, to: nat)
    requires from < |s| && to < |s|
    ensures var t := RemoveAt(s, from); var m := t[..to] + [s[from]] + t[to..];
      |m| == |s| && m[to] == s[from] && multiset(m) == multiset(s) && RemoveAt(m, to) == t
  {
    var t := RemoveAt(s, from);
    var m := t[..to] + [s[from]] + t[to..];
    assert RemoveAt(m, to) == t by {
      assert m[..to] == t[..to] && m[to + 1..] == t[to..];
    }
    assert multiset(m) == multiset(t) + multiset([s[from]]) by {
      assert t == t[..to] + t[to..];
    }
    assert multiset(s) == multiset(t) + multiset([s[from]]) by {
      assert s == s[..from] + [s[from]] + s[from + 1..];
    }
  }

  lemma MoveShape(s: seq<JsValue>, from: int, to: int)
    requires 0 <= from < |s| && 0 <= to < |s| && from != to
    ensures MoveOf(s, from, to) == RemoveAt(s, from)[..to] + [s[from]] + RemoveAt(s, from)[to..]
  {
    SpliceRemoves(s, from);
    SpliceInserts(RemoveAt(s, from), to, s[from]);
  }

  lemma SpliceRemoves<T>(s: seq<T>, i: nat)
    requires i < |s|
    ensures SpliceOf(s, i, 1, []) == RemoveAt(s, i)
  {
  }

  lemma SpliceInserts<T>(s: seq<T>, i: nat, x: T)
    requires i <= |s|
    ensures SpliceOf(s, i, 0, [x]) == s[..i] + [x] + s[i..]
  {
  }

  /** With `from` outside the array, `move` reads undefined and inserts it:
      past the end nothing is removed and the array grows; below 0 the
      splice counts from the end and an element is lost. */
  lemma MoveFromOutside(s: seq<JsValue>, from: int, to: int)
    requires |s| > 0 && from != to && (from < 0 || from >= |s|)
    ensures var m := MoveOf(s, from, to);
      Undefined in m && |m| == (if from >= |s| then |s| + 1 else |s|)
  {
    var t := SpliceOf(s, from, 1, []);
    var k := RelativeStart(to, |t|);
    assert MoveOf(s, from, to)[k] == Undefined;
  }
}
