/**
 Splitting Falcon's fused query/key/value groups: a view, three slices and their concatenation.

 The tensor is the sequence of its elements in row-major order, which is what a view reinterprets.
 */
module FalconLayout {
  import opened Wrappers
  import opened HeadLayout

  /** The length of `n` stretches of `size` elements; TimesIs says it is the product. */
  function Times(n: nat, size: nat): nat {
    if n == 0 then 0 else size + Times(n - 1, size)
  }

  lemma {:induction false} TimesIs(n: nat, size: nat)
    ensures Times(n, size) == n * size
  {
    if n > 0 {
      TimesIs(n - 1, size);
      assert n * size == size + (n - 1) * size;
    }
  }

  /** The fused tensor viewed as `groups` stretches of `size` elements: from each, `width` of them from place `from`. */
  function Slices<T>(qkv: seq<T>, groups: nat, size: nat, from: nat, width: nat): (slice: seq<T>)
    requires |qkv| == Times(groups, size) && from + width <= size
    ensures |slice| == Times(groups, width)
    decreases groups
  {
    if groups == 0 then [] else qkv[from..from + width] + Slices(qkv[size..], groups - 1, size, from, width)
  }

  /** A group of `size` elements is its queries, from `keys` on one key of `dim`, and from `values` on one value. */
  predicate IsGroup(size: nat, keys: nat, values: nat, dim: nat) {
    values == keys + dim && size == values + dim
  }

  function Regroup<T>(qkv: seq<T>, groups: nat, size: nat, keys: nat, values: nat, dim: nat): seq<T>
    requires |qkv| == Times(groups, size) && IsGroup(size, keys, values, dim)
  {
    Slices(qkv, groups, size, 0, keys) + Slices(qkv, groups, size, keys, dim) + Slices(qkv, groups, size, values, dim)
  }

  function GroupsOf(headsKv: Option<nat>): nat {
    if headsKv.None? || headsKv.value == 0 then 1 else headsKv.value
  }

  /** A head of the view is head-size rows, each as wide as head-size times heads. */
  function HeadElements(heads: nat, hidden: nat): nat
    requires heads > 0
  {
    hidden / heads * (hidden / heads * heads)
  }

  /** The transform of a query_key_value tensor, whatever its rows and columns: it is read element by element. */
  function FalconTransform<T>(qkv: seq<T>, heads: nat, headsKv: Option<nat>, hidden: nat): Result<seq<T>, Error> {
    if heads == 0 then Failure(ZeroDivision)
    else
      var groups := GroupsOf(headsKv);
      var dim := HeadElements(heads, hidden);
      var keys := Times(heads / groups, dim);
      View(qkv, heads, groups, keys + dim + dim, keys, keys + dim, dim)
  }

  /** The view, the slices and their reshapes, once the sizes are worked out. */
  function View<T>(qkv: seq<T>, heads: nat, groups: nat, size: nat, keys: nat, values: nat, dim: nat)
    : Result<seq<T>, Error>
    requires IsGroup(size, keys, values, dim)
  {
    if |qkv| != Times(groups, size) then Failure(BadShape)
    else if Times(groups, keys) != Times(heads, dim) then Failure(BadShape)
    else Success(Regroup(qkv, groups, size, keys, values, dim))
  }

  /** Where each sliced element comes from: the same place of the same group. */
  lemma {:induction false} SlicedFrom<T>(qkv: seq<T>, groups: nat, size: nat, from: nat, width: nat, i: nat, x: nat)
    requires |qkv| == Times(groups, size) && from + width <= size
    requires i < groups && x < width
    ensures Times(i, width) + x < Times(groups, width) && Times(i, size) + (from + x) < |qkv|
    ensures Slices(qkv, groups, size, from, width)[Times(i, width) + x] == qkv[Times(i, size) + (from + x)]
    decreases groups
  {
    var first, rest := qkv[from..from + width], qkv[size..];
    assert Slices(qkv, groups, size, from, width) == first + Slices(rest, groups - 1, size, from, width);
    if i > 0 {
      SlicedFrom(rest, groups - 1, size, from, width, i - 1, x);
      assert rest[Times(i - 1, size) + (from + x)] == qkv[Times(i, size) + (from + x)];
    } else {
      assert first[x] == qkv[from + x];
    }
  }

  /** Where place `x` of group `i` is found after the transform. */
  function Place(groups: nat, keys: nat, values: nat, dim: nat, i: nat, x: nat): nat
    requires keys <= values
  {
    if x < keys then Times(i, keys) + x
    else if x < values then Times(groups, keys) + (Times(i, dim) + (x - keys))
    else Times(groups, keys) + Times(groups, dim) + (Times(i, dim) + (x - values))
  }

  ghost predicate Found<T>(out: seq<T>, place: nat, data: seq<T>, source: nat) {
    place < |out| && source < |data| && out[place] == data[source]
  }

  /** Every element of the fused tensor is found again, by closed form: queries first, then keys, then values. */
  lemma PlaceFound<T>(qkv: seq<T>, groups: nat, size: nat, keys: nat, values: nat, dim: nat, i: nat, x: nat)
    requires |qkv| == Times(groups, size) && IsGroup(size, keys, values, dim) && i < groups && x < size
    ensures Found(Regroup(qkv, groups, size, keys, values, dim), Place(groups, keys, values, dim, i, x),
                  qkv, Times(i, size) + x)
  {
    var q, k, v :=
      Slices(qkv, groups, size, 0, keys), Slices(qkv, groups, size, keys, dim), Slices(qkv, groups, size, values, dim);
    var source := Times(i, size) + x;
    if x < keys {
      QueryFound(qkv, groups, size, keys, i, x, q, k, v, Times(i, keys) + x, source);
    } else if x < values {
      KeyFound(qkv, groups, size, keys, dim, i, x, x - keys, q, k, v, Times(i, dim) + (x - keys), source);
    } else {
      ValueFound(qkv, groups, size, values, dim, i, x, x - values, q, k, v, Times(i, dim) + (x - values), source);
    }
  }

  lemma QueryFound<T>(qkv: seq<T>, groups: nat, size: nat, asked: nat, i: nat, x: nat,
                      q: seq<T>, k: seq<T>, v: seq<T>, at: nat, source: nat)
    requires |qkv| == Times(groups, size) && asked <= size && i < groups && x < asked
    requires q == Slices(qkv, groups, size, 0, asked) && at == Times(i, asked) + x && source == Times(i, size) + x
    ensures Found(q + k + v, at, qkv, source)
  {
    FoundInSlice(qkv, groups, size, 0, asked, i, x, x, at, source);
    FoundInParts(q, k, v, at, qkv, source);
  }

  lemma KeyFound<T>(qkv: seq<T>, groups: nat, size: nat, from: nat, dim: nat, i: nat, x: nat, d: nat,
                    q: seq<T>, k: seq<T>, v: seq<T>, at: nat, source: nat)
    requires |qkv| == Times(groups, size) && from + dim <= size && i < groups && d < dim && x == from + d
    requires k == Slices(qkv, groups, size, from, dim) && at == Times(i, dim) + d && source == Times(i, size) + x
    ensures Found(q + k + v, |q| + at, qkv, source)
  {
    FoundInSlice(qkv, groups, size, from, dim, i, d, x, at, source);
    FoundInParts(q, k, v, at, qkv, source);
  }

  lemma ValueFound<T>(qkv: seq<T>, groups: nat, size: nat, from: nat, dim: nat, i: nat, x: nat, d: nat,
                      q: seq<T>, k: seq<T>, v: seq<T>, at: nat, source: nat)
    requires |qkv| == Times(groups, size) && from + dim <= size && i < groups && d < dim && x == from + d
    requires v == Slices(qkv, groups, size, from, dim) && at == Times(i, dim) + d && source == Times(i, size) + x
    ensures Found(q + k + v, |q| + |k| + at, qkv, source)
  {
    FoundInSlice(qkv, groups, size, from, dim, i, d, x, at, source);
    FoundInParts(q, k, v, at, qkv, source);
  }

  lemma FoundInSlice<T>(qkv: seq<T>, groups: nat, size: nat, from: nat, width: nat, i: nat, d: nat, x: nat,
                        at: nat, source: nat)
    requires |qkv| == Times(groups, size) && from + width <= size && i < groups && d < width && x == from + d
    requires at == Times(i, width) + d && source == Times(i, size) + x
    ensures Found(Slices(qkv, groups, size, from, width), at, qkv, source)
  {
    SlicedFrom(qkv, groups, size, from, width, i, d);
  }

  lemma FoundInParts<T>(q: seq<T>, k: seq<T>, v: seq<T>, p: nat, data: seq<T>, source: nat)
    ensures Found(q, p, data, source) ==> Found(q + k + v, p, data, source)
    ensures Found(k, p, data, source) ==> Found(q + k + v, |q| + p, data, source)
    ensures Found(v, p, data, source) ==> Found(q + k + v, |q| + |k| + p, data, source)
  {
  }

  /** And nothing else is there: the transform permutes the elements. */
  lemma RegroupPermutes<T>(qkv: seq<T>, groups: nat, size: nat, keys: nat, values: nat, dim: nat)
    requires |qkv| == Times(groups, size) && IsGroup(size, keys, values, dim)
    ensures multiset(Regroup(qkv, groups, size, keys, values, dim)) == multiset(qkv)
  {
    SlicesHoldAll(qkv, groups, size, keys, values, dim);
    Joined(Slices(qkv, groups, size, 0, keys), Slices(qkv, groups, size, keys, dim),
           Slices(qkv, groups, size, values, dim), qkv);
  }

  ghost predicate HoldAll<T>(queries: seq<T>, keys: seq<T>, values: seq<T>, all: seq<T>) {
    multiset(queries) + multiset(keys) + multiset(values) == multiset(all)
  }

  lemma Joined<T>(queries: seq<T>, keys: seq<T>, values: seq<T>, all: seq<T>)
    requires HoldAll(queries, keys, values, all)
    ensures multiset(queries + keys + values) == multiset(all)
  {
  }

  lemma {:induction false} SlicesHoldAll<T>(qkv: seq<T>, groups: nat, size: nat, mid: nat, last: nat, dim: nat)
    requires |qkv| == Times(groups, size) && last == mid + dim && size == last + dim
    ensures HoldAll(Slices(qkv, groups, size, 0, mid), Slices(qkv, groups, size, mid, dim),
                    Slices(qkv, groups, size, last, dim), qkv)
    decreases groups
  {
    if groups > 0 {
      var fewer, rest := groups - 1, qkv[size..];
      SlicesHoldAll(rest, fewer, size, mid, last, dim);
      FirstGroup(qkv, rest, groups, fewer, size, 0, mid, mid);
      FirstGroup(qkv, rest, groups, fewer, size, mid, last, dim);
      FirstGroup(qkv, rest, groups, fewer, size, last, size, dim);
      OneGroupMore(qkv, rest, size, mid, last,
                   Slices(rest, fewer, size, 0, mid), Slices(rest, fewer, size, mid, dim),
                   Slices(rest, fewer, size, last, dim));
    }
  }

  lemma FirstGroup<T>(qkv: seq<T>, rest: seq<T>, groups: nat, fewer: nat, size: nat, from: nat, to: nat, width: nat)
    requires groups == fewer + 1 && |qkv| == Times(groups, size) && rest == qkv[size..]
    requires from + width == to <= size
    ensures Slices(qkv, groups, size, from, width) == qkv[from..to] + Slices(rest, fewer, size, from, width)
  {
  }

  lemma OneGroupMore<T>(qkv: seq<T>, rest: seq<T>, size: nat, mid: nat, last: nat,
                        queries: seq<T>, keys: seq<T>, values: seq<T>)
    requires mid <= last <= size <= |qkv| && rest == qkv[size..]
    requires HoldAll(queries, keys, values, rest)
    ensures HoldAll(qkv[0..mid] + queries, qkv[mid..last] + keys, qkv[last..size] + values, qkv)
  {
    CutInFour(qkv, mid, last, size);
  }

  lemma CutInFour<T>(s: seq<T>, i: nat, j: nat, k: nat)
    requires i <= j <= k <= |s|
    ensures multiset(s) == multiset(s[0..i]) + multiset(s[i..j]) + multiset(s[j..k]) + multiset(s[k..])
  {
    assert s[..j] == s[0..i] + s[i..j] && s[..k] == s[..j] + s[j..k] && s == s[..k] + s[k..];
  }

  /** The sizes the transform works with. */
  predicate Sizes(heads: nat, headsKv: Option<nat>, hidden: nat,
                  groups: nat, size: nat, keys: nat, values: nat, dim: nat)
  {
    && heads > 0
    && groups == GroupsOf(headsKv)
    && dim == HeadElements(heads, hidden)
    && keys == Times(heads / groups, dim)
    && IsGroup(size, keys, values, dim)
  }

  /** What a successful transform returns: the same elements, each at its place. */
  lemma FalconPlaces<T>(qkv: seq<T>, heads: nat, headsKv: Option<nat>, hidden: nat, out: seq<T>,
                        groups: nat, size: nat, keys: nat, values: nat, dim: nat, i: nat, x: nat)
    requires FalconTransform(qkv, heads, headsKv, hidden) == Success(out)
    requires Sizes(heads, headsKv, hidden, groups, size, keys, values, dim) && i < groups && x < size
    ensures keys <= values && multiset(out) == multiset(qkv)
    ensures Found(out, Place(groups, keys, values, dim, i, x), qkv, Times(i, size) + x)
  {
    TransformIsView(qkv, heads, headsKv, hidden, groups, size, keys, values, dim);
    RegroupPermutes(qkv, groups, size, keys, values, dim);
    PlaceFound(qkv, groups, size, keys, values, dim, i, x);
  }

  lemma TransformIsView<T>(qkv: seq<T>, heads: nat, headsKv: Option<nat>, hidden: nat,
                           groups: nat, size: nat, keys: nat, values: nat, dim: nat)
    requires Sizes(heads, headsKv, hidden, groups, size, keys, values, dim)
    ensures FalconTransform(qkv, heads, headsKv, hidden) == View(qkv, heads, groups, size, keys, values, dim)
  {
  }

  /** The transform is refused exactly when the view does not fit or the groups do not divide the heads. */
  lemma FalconFailsIff<T>(qkv: seq<T>, heads: nat, headsKv: Option<nat>, hidden: nat)
    ensures FalconTransform(qkv, heads, headsKv, hidden).Success? <==>
      && heads > 0
      && var groups := GroupsOf(headsKv);
         var dim := HeadElements(heads, hidden);
         && |qkv| == groups * ((heads / groups + 2) * dim)
         && (heads % groups == 0 || dim == 0)
  {
    if heads > 0 {
      var groups := GroupsOf(headsKv);
      var dim := HeadElements(heads, hidden);
      ViewFits(groups, heads / groups, dim);
      DividesIff(heads, groups, dim);
    }
  }

  lemma ViewFits(groups: nat, queries: nat, dim: nat)
    ensures Times(groups, Times(queries, dim) + 2 * dim) == groups * ((queries + 2) * dim)
  {
    TimesIs(queries, dim);
    TimesIs(groups, Times(queries, dim) + 2 * dim);
    assert (queries + 2) * dim == queries * dim + 2 * dim;
  }

  lemma DividesIff(heads: nat, groups: nat, dim: nat)
    requires groups > 0
    ensures Times(groups, Times(heads / groups, dim)) == Times(heads, dim) <==> heads % groups == 0 || dim == 0
  {
    var queries, over := heads / groups, heads % groups;
    TimesIs(queries, dim);
    TimesIs(groups, Times(queries, dim));
    TimesIs(heads, dim);
    DivMod(heads, groups, queries, over);
    Divided(heads, groups, queries, over, dim);
  }

  lemma DivMod(n: nat, d: nat, q: nat, r: nat)
    requires d > 0 && q == n / d && r == n % d
    ensures n == q * d + r
  {
  }

  lemma Divided(heads: nat, groups: nat, queries: nat, over: nat, dim: nat)
    requires heads == queries * groups + over
    ensures groups * (queries * dim) == heads * dim <==> over == 0 || dim == 0
  {
    assert groups * (queries * dim) == queries * groups * dim;
    assert heads * dim == queries * groups * dim + over * dim;
  }

  // ---------------------------------------------------------------- in terms of the model's numbers

  /**
   Where the transform puts place `x` of group `i`, for `per` query heads to each key/value head and
   heads of `unit` elements.
   */
  function Target(heads: nat, kv: nat, per: nat, unit: nat, i: nat, x: nat): int {
    if x < per * unit then i * (per * unit) + x
    else if x < (per + 1) * unit then heads * unit + i * unit + (x - per * unit)
    else (heads + kv) * unit + i * unit + (x - (per + 1) * unit)
  }

  ghost predicate Lands<T>(out: seq<T>, at: int, data: seq<T>, source: int) {
    0 <= at < |out| && 0 <= source < |data| && out[at] == data[source]
  }

  /**
   A model with `kv` key/value heads, `per` query heads to each, and heads of `headDim` rows, each as
   wide as the model: its fused tensor is always regrouped, and this is where every element goes.
   */
  lemma GroupedPlaces<T>(qkv: seq<T>, heads: nat, kv: nat, per: nat, headDim: nat, hidden: nat, unit: nat,
                         i: nat, x: nat)
    requires kv > 0 && per > 0 && heads == kv * per && hidden == heads * headDim && unit == headDim * hidden
    requires |qkv| == (heads + 2 * kv) * unit
    requires i < kv && x < (per + 2) * unit
    ensures var r := FalconTransform(qkv, heads, Some(kv), hidden);
      && r.Success? && multiset(r.value) == multiset(qkv)
      && Lands(r.value, Target(heads, kv, per, unit, i, x), qkv, i * ((per + 2) * unit) + x)
  {
    var keys := per * unit;
    var values := keys + unit;
    var size := values + unit;
    GroupedSizes(heads, kv, per, headDim, hidden, unit, size, keys, values);
    GroupedFits(heads, kv, per, unit, size, keys, |qkv|);
    var at, source := Target(heads, kv, per, unit, i, x), i * ((per + 2) * unit) + x;
    PlaceIsTarget(heads, kv, per, unit, size, keys, values, i, x, at, source);
    GroupedOut(qkv, heads, kv, hidden, unit, size, keys, values, i, x, at, source);
  }

  lemma GroupedOut<T>(qkv: seq<T>, heads: nat, kv: nat, hidden: nat, unit: nat, size: nat, keys: nat, values: nat,
                      i: nat, x: nat, at: int, source: int)
    requires Sizes(heads, Some(kv), hidden, kv, size, keys, values, unit)
    requires |qkv| == Times(kv, size) && Times(kv, keys) == Times(heads, unit)
    requires i < kv && x < size && at == Place(kv, keys, values, unit, i, x) && source == Times(i, size) + x
    ensures var r := FalconTransform(qkv, heads, Some(kv), hidden);
      r.Success? && multiset(r.value) == multiset(qkv) && Lands(r.value, at, qkv, source)
  {
    TransformIsView(qkv, heads, Some(kv), hidden, kv, size, keys, values, unit);
    ViewLands(qkv, heads, kv, unit, size, keys, values, i, x, at, source);
  }

  lemma ViewLands<T>(qkv: seq<T>, heads: nat, kv: nat, unit: nat, size: nat, keys: nat, values: nat,
                     i: nat, x: nat, at: int, source: int)
    requires |qkv| == Times(kv, size) && Times(kv, keys) == Times(heads, unit) && IsGroup(size, keys, values, unit)
    requires i < kv && x < size && at == Place(kv, keys, values, unit, i, x) && source == Times(i, size) + x
    ensures var r := View(qkv, heads, kv, size, keys, values, unit);
      r.Success? && multiset(r.value) == multiset(qkv) && Lands(r.value, at, qkv, source)
  {
    RegroupPermutes(qkv, kv, size, keys, values, unit);
    PlaceFound(qkv, kv, size, keys, values, unit, i, x);
  }

  lemma GroupedSizes(heads: nat, kv: nat, per: nat, headDim: nat, hidden: nat,
                     unit: nat, size: nat, keys: nat, values: nat)
    requires kv > 0 && per > 0 && heads == kv * per && hidden == heads * headDim && unit == headDim * hidden
    requires keys == per * unit && values == keys + unit && size == values + unit
    ensures Sizes(heads, Some(kv), hidden, kv, size, keys, values, unit)
  {
    Ordered(1, per, kv);
    Swap(heads, headDim);
    Swap(kv, per);
    Split(headDim, heads, 0);
    Split(per, kv, 0);
    assert hidden / heads == headDim && heads / kv == per;
    TimesIs(per, unit);
  }

  lemma GroupedFits(heads: nat, kv: nat, per: nat, unit: nat, size: nat, keys: nat, elements: nat)
    requires heads == kv * per && elements == (heads + 2 * kv) * unit
    requires keys == per * unit && size == keys + unit + unit
    ensures elements == Times(kv, size) && Times(kv, keys) == Times(heads, unit)
    ensures size == (per + 2) * unit
  {
    TimesIs(kv, size);
    TimesIs(kv, keys);
    TimesIs(heads, unit);
    Assoc(kv, per, unit);
    Sums(kv, keys, unit);
    Sums'(heads, kv, unit);
    Sums'(per, 1, unit);
  }

  lemma Swap(a: nat, b: nat)
    ensures a * b == b * a
  {
  }

  lemma Assoc(a: nat, b: nat, c: nat)
    ensures a * (b * c) == a * b * c
  {
  }

  lemma Sums(n: nat, a: nat, b: nat)
    ensures n * (a + b + b) == n * a + 2 * (n * b)
  {
  }

  lemma Sums'(a: nat, b: nat, n: nat)
    ensures (a + 2 * b) * n == a * n + 2 * (b * n)
    ensures (a + b) * n == a * n + b * n
  {
  }

  lemma PlaceIsTarget(heads: nat, kv: nat, per: nat, unit: nat, size: nat, keys: nat, values: nat, i: nat, x: nat,
                      at: int, source: int)
    requires heads == kv * per && keys == per * unit && values == keys + unit && size == (per + 2) * unit
    requires at == Target(heads, kv, per, unit, i, x) && source == i * ((per + 2) * unit) + x
    ensures at == Place(kv, keys, values, unit, i, x) && source == Times(i, size) + x
  {
    TimesIs(i, keys);
    TimesIs(i, unit);
    TimesIs(i, size);
    TimesIs(kv, keys);
    TimesIs(kv, unit);
    Assoc(kv, per, unit);
    Sums'(heads, kv, unit);
    Sums'(per, 1, unit);
  }

  /** No key/value head count, and a count of zero, mean one. */
  lemma OneGroup<T>(qkv: seq<T>, heads: nat, hidden: nat)
    ensures FalconTransform(qkv, heads, None, hidden) == FalconTransform(qkv, heads, Some(1), hidden)
    ensures FalconTransform(qkv, heads, Some(0), hidden) == FalconTransform(qkv, heads, Some(1), hidden)
  {
  }
}
