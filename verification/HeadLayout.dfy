/**
 The re-layout of attention weights: the two halves of each head are interleaved, and every score of
 a query against a key stays what it was.

 A tensor is the sequence of its rows; what a row holds is left open except where scores are
 computed.  A reshape that does not fit, and a division by zero, are errors.
 */
module HeadLayout {
  import opened Wrappers

  datatype Error = ZeroDivision | BadShape

  // ---------------------------------------------------------------- interleaving the halves of a head

  /** reshape(heads, 2, half), swap the last two axes, reshape back; PermuteIsSwap says so by index. */
  function Permute<T>(weights: seq<T>, heads: nat): Result<seq<T>, Error> {
    if heads == 0 then Failure(ZeroDivision)
    else
      var half := |weights| / heads / 2;
      if |weights| != heads * (2 * half) then Failure(BadShape)
      else Success(Interleave(weights, heads, half))
  }

  function Interleave<T>(weights: seq<T>, heads: nat, half: nat): (out: seq<T>)
    requires |weights| == heads * (2 * half)
    ensures |out| == |weights|
  {
    seq(|weights|, r requires 0 <= r < |weights| =>
      SourceInHead(heads, half, r);
      weights[Source(half, r)])
  }

  function Deinterleave<T>(weights: seq<T>, heads: nat, half: nat): (out: seq<T>)
    requires |weights| == heads * (2 * half)
    ensures |out| == |weights|
  {
    seq(|weights|, r requires 0 <= r < |weights| =>
      TargetInHead(heads, half, r);
      weights[Target(half, r)])
  }

  /** The place inside a head that place `x` is filled from, and the place it goes to. */
  function Within(half: nat, x: nat): nat {
    if x % 2 == 0 then x / 2 else half + x / 2
  }

  function Without(half: nat, y: nat): nat {
    if y < half then 2 * y else 2 * (y - half) + 1
  }

  lemma WithinInverse(half: nat, x: nat)
    requires x < 2 * half
    ensures Within(half, x) < 2 * half && Without(half, x) < 2 * half
    ensures Without(half, Within(half, x)) == x && Within(half, Without(half, x)) == x
  {
  }

  function Source(half: nat, r: nat): int
    requires half > 0
  {
    r / (2 * half) * (2 * half) + Within(half, r % (2 * half))
  }

  function Target(half: nat, r: nat): int
    requires half > 0
  {
    r / (2 * half) * (2 * half) + Without(half, r % (2 * half))
  }

  /** A multiple of `size` and a remainder, taken apart again. */
  lemma Split(h: nat, size: nat, x: nat)
    requires x < size
    ensures (h * size + x) % size == x && (h * size + x) / size == h
  {
    var n := h * size + x;
    assert n == n / size * size + n % size;
    if n / size < h {
      Ordered(n / size + 1, h, size);
    } else if n / size > h {
      Ordered(h + 1, n / size, size);
    }
  }

  lemma Ordered(a: nat, b: nat, size: nat)
    requires a <= b
    ensures a * size <= b * size
  {
  }

  /** A row is place `x` of head `h`. */
  lemma InHead(heads: nat, size: nat, r: nat) returns (h: nat, x: nat)
    requires r < heads * size
    ensures h < heads && x < size && r == h * size + x
    ensures h == r / size && x == r % size
    ensures h * size + size <= heads * size
  {
    h, x := r / size, r % size;
    assert r == r / size * size + r % size;
    if h >= heads {
      Ordered(heads, h, size);
    }
    Ordered(h + 1, heads, size);
    assert (h + 1) * size == h * size + size;
  }

  lemma SourceInHead(heads: nat, half: nat, r: nat)
    requires r < heads * (2 * half)
    ensures half > 0 && 0 <= Source(half, r) < heads * (2 * half)
    ensures Source(half, r) / (2 * half) == r / (2 * half)
    ensures Target(half, Source(half, r)) == r
  {
    var h, x := InHead(heads, 2 * half, r);
    WithinInverse(half, x);
    Split(h, 2 * half, Within(half, x));
  }

  lemma TargetInHead(heads: nat, half: nat, r: nat)
    requires r < heads * (2 * half)
    ensures half > 0 && 0 <= Target(half, r) < heads * (2 * half)
    ensures Target(half, r) / (2 * half) == r / (2 * half)
    ensures Source(half, Target(half, r)) == r
  {
    var h, x := InHead(heads, 2 * half, r);
    WithinInverse(half, x);
    Split(h, 2 * half, Without(half, x));
  }

  /** Element [h][i][j] of the reshaped tensor becomes element [h][j][i]. */
  lemma PermuteIsSwap<T>(weights: seq<T>, heads: nat, half: nat, h: nat, i: nat, j: nat, at: nat, source: nat)
    requires |weights| == heads * (2 * half)
    requires h < heads && i < 2 && j < half
    requires at == h * (2 * half) + (2 * j + i) && source == h * (2 * half) + (i * half + j)
    ensures var r := Permute(weights, heads);
      && r.Success? && |r.value| == |weights|
      && at < |weights| && source < |weights| && r.value[at] == weights[source]
  {
    HalfOf(heads, half);
    Ordered(h + 1, heads, 2 * half);
    assert (h + 1) * (2 * half) == h * (2 * half) + 2 * half;
    Split(h, 2 * half, 2 * j + i);
    assert Within(half, 2 * j + i) == i * half + j;
  }

  /** The reshape fits exactly when every head has an even number of rows. */
  lemma PermuteFitsIff<T>(weights: seq<T>, heads: nat)
    ensures Permute(weights, heads).Success? <==> heads > 0 && exists half: nat :: |weights| == heads * (2 * half)
  {
    if heads > 0 {
      forall half: nat | |weights| == heads * (2 * half) ensures Permute(weights, heads).Success? {
        HalfOf(heads, half);
      }
    }
  }

  /** The re-layout loses nothing: each direction undoes the other. */
  lemma PermuteInverse<T>(weights: seq<T>, heads: nat, half: nat)
    requires |weights| == heads * (2 * half)
    ensures Deinterleave(Interleave(weights, heads, half), heads, half) == weights
    ensures Interleave(Deinterleave(weights, heads, half), heads, half) == weights
  {
    forall r | 0 <= r < |weights|
      ensures Deinterleave(Interleave(weights, heads, half), heads, half)[r] == weights[r]
      ensures Interleave(Deinterleave(weights, heads, half), heads, half)[r] == weights[r]
    {
      SourceInHead(heads, half, r);
      TargetInHead(heads, half, r);
    }
  }

  // ---------------------------------------------------------------- attention scores

  /** The terms from `from` up to `end`, summed. */
  ghost function Total(terms: seq<real>, from: nat, end: nat): real
    requires from <= end <= |terms|
    decreases end
  {
    if from == end then 0.0 else Total(terms, from, end - 1) + terms[end - 1]
  }

  ghost function Products(p: seq<real>, q: seq<real>): (terms: seq<real>)
    requires |p| == |q|
    ensures |terms| == |p|
  {
    seq(|p|, d requires 0 <= d < |p| => p[d] * q[d])
  }

  ghost function Dot(p: seq<real>, q: seq<real>): real
    requires |p| == |q|
  {
    Total(Products(p, q), 0, |p|)
  }

  ghost predicate Columns(weights: seq<seq<real>>, n: nat) {
    forall r :: 0 <= r < |weights| ==> |weights[r]| == n
  }

  /** A projection: its weights, a row for each output, and its bias, which is zero where there is none. */
  datatype Layer = Layer(weights: seq<seq<real>>, bias: seq<real>)

  ghost predicate Shaped(l: Layer, rows: nat, columns: nat) {
    |l.weights| == |l.bias| == rows && Columns(l.weights, columns)
  }

  ghost function Project(l: Layer, input: seq<real>): (out: seq<real>)
    requires Shaped(l, |l.weights|, |input|)
    ensures |out| == |l.weights|
  {
    seq(|l.weights|, r requires 0 <= r < |l.weights| => Dot(l.weights[r], input) + l.bias[r])
  }

  /** Head `h` of a projection whose heads are `size` wide. */
  ghost function Head(v: seq<real>, heads: nat, size: nat, h: nat): (head: seq<real>)
    requires |v| == heads * size && h < heads
    ensures |head| == size
  {
    HeadBounds(heads, size, h);
    v[h * size..h * size + size]
  }

  lemma HeadBounds(heads: nat, size: nat, h: nat)
    requires h < heads
    ensures 0 <= h * size && h * size + size <= heads * size
  {
    Ordered(h + 1, heads, size);
    assert (h + 1) * size == h * size + size;
  }

  /** One head with its halves interleaved. */
  ghost function Woven<T>(head: seq<T>, half: nat): (out: seq<T>)
    requires |head| == 2 * half
    ensures |out| == |head|
  {
    seq(2 * half, x requires 0 <= x < 2 * half => head[Within(half, x)])
  }

  /** Summing in interleaved order sums both halves. */
  lemma {:induction false} TotalWoven(terms: seq<real>, half: nat, j: nat)
    requires |terms| == 2 * half && j <= half
    ensures Total(Woven(terms, half), 0, 2 * j) == Total(terms, 0, j) + Total(terms, half, half + j)
  {
    if j > 0 {
      var woven := Woven(terms, half);
      TotalWoven(terms, half, j - 1);
      assert woven[2 * j - 2] == terms[j - 1] && woven[2 * j - 1] == terms[half + (j - 1)];
      assert Total(woven, 0, 2 * j) == Total(woven, 0, 2 * j - 2) + woven[2 * j - 2] + woven[2 * j - 1];
    }
  }

  lemma {:induction false} TotalSplit(terms: seq<real>, mid: nat, end: nat)
    requires mid <= end <= |terms|
    ensures Total(terms, 0, end) == Total(terms, 0, mid) + Total(terms, mid, end)
    decreases end
  {
    if mid < end {
      TotalSplit(terms, mid, end - 1);
    }
  }

  /** A dot product does not change when both heads are interleaved. */
  lemma DotWoven(p: seq<real>, q: seq<real>, half: nat)
    requires |p| == |q| == 2 * half
    ensures Dot(Woven(p, half), Woven(q, half)) == Dot(p, q)
  {
    var terms := Products(p, q);
    forall x | 0 <= x < 2 * half
      ensures Products(Woven(p, half), Woven(q, half))[x] == Woven(terms, half)[x]
    {
      WithinInverse(half, x);
    }
    assert Products(Woven(p, half), Woven(q, half)) == Woven(terms, half);
    TotalWoven(terms, half, half);
    TotalSplit(terms, half, 2 * half);
  }

  ghost function InterleaveLayer(l: Layer, heads: nat, half: nat): Layer
    requires |l.weights| == |l.bias| == heads * (2 * half)
  {
    Layer(Interleave(l.weights, heads, half), Interleave(l.bias, heads, half))
  }

  /** Projecting with a re-laid-out layer re-lays out the projection. */
  lemma ProjectPermuted(l: Layer, input: seq<real>, heads: nat, half: nat)
    requires Shaped(l, heads * (2 * half), |input|)
    ensures Shaped(InterleaveLayer(l, heads, half), heads * (2 * half), |input|)
    ensures Project(InterleaveLayer(l, heads, half), input) == Interleave(Project(l, input), heads, half)
  {
    var woven, out := InterleaveLayer(l, heads, half), Project(l, input);
    ColumnsPermuted(l.weights, |input|, heads, half);
    forall r | 0 <= r < |out|
      ensures Project(woven, input)[r] == Interleave(out, heads, half)[r]
    {
      SourceInHead(heads, half, r);
      var source := Source(half, r);
      assert woven.weights[r] == l.weights[source] && woven.bias[r] == l.bias[source];
    }
  }

  lemma ColumnsPermuted(weights: seq<seq<real>>, n: nat, heads: nat, half: nat)
    requires |weights| == heads * (2 * half) && Columns(weights, n)
    ensures Columns(Interleave(weights, heads, half), n)
  {
    forall r | 0 <= r < |weights| ensures |Interleave(weights, heads, half)[r]| == n {
      SourceInHead(heads, half, r);
    }
  }

  /** A head of the re-laid-out projection is that head, interleaved: no row leaves its head. */
  lemma HeadPermuted(v: seq<real>, heads: nat, half: nat, h: nat)
    requires |v| == heads * (2 * half) && h < heads
    ensures Head(Interleave(v, heads, half), heads, 2 * half, h) == Woven(Head(v, heads, 2 * half, h), half)
  {
    var size := 2 * half;
    HeadBounds(heads, size, h);
    forall x | 0 <= x < size
      ensures Head(Interleave(v, heads, half), heads, size, h)[x] == Woven(Head(v, heads, size, h), half)[x]
    {
      WithinInverse(half, x);
      SourceAt(half, h, x, h * size);
      SourceInHead(heads, half, h * size + x);
    }
  }

  lemma SourceAt(half: nat, h: nat, x: nat, base: nat)
    requires x < 2 * half && base == h * (2 * half)
    ensures Source(half, base + x) == base + Within(half, x)
  {
    Split(h, 2 * half, x);
  }

  /** The heads a query or key tensor is split into: the key/value count, when one is given. */
  function LlamaHeads(nHead: nat, nHeadKv: Option<nat>): nat {
    if nHeadKv.Some? && nHead != nHeadKv.value then nHeadKv.value else nHead
  }

  /** A layer with its weights and its bias re-laid out. */
  function PermuteLayer(l: Layer, heads: nat): Result<Layer, Error> {
    match (Permute(l.weights, heads), Permute(l.bias, heads))
    case (Success(weights), Success(bias)) => Success(Layer(weights, bias))
    case (Failure(e), _) => Failure(e)
    case (_, Failure(e)) => Failure(e)
  }

  /** The score of query head `a` against key head `b`. */
  ghost function Score(q: Layer, k: Layer, x: seq<real>, y: seq<real>, qHeads: nat, kHeads: nat, size: nat,
                       a: nat, b: nat): real
    requires Shaped(q, qHeads * size, |x|) && Shaped(k, kHeads * size, |y|) && a < qHeads && b < kHeads
  {
    Dot(Head(Project(q, x), qHeads, size, a), Head(Project(k, y), kHeads, size, b))
  }

  /** The re-laid-out layers give the same score. */
  ghost predicate ScoreKept(q: Layer, k: Layer, q': Result<Layer, Error>, k': Result<Layer, Error>,
                            x: seq<real>, y: seq<real>, qHeads: nat, kHeads: nat, size: nat, a: nat, b: nat)
    requires Shaped(q, qHeads * size, |x|) && Shaped(k, kHeads * size, |y|) && a < qHeads && b < kHeads
  {
    && q'.Success? && Shaped(q'.value, qHeads * size, |x|)
    && k'.Success? && Shaped(k'.value, kHeads * size, |y|)
    && Score(q'.value, k'.value, x, y, qHeads, kHeads, size, a, b) == Score(q, k, x, y, qHeads, kHeads, size, a, b)
  }

  /**
   Every attention score is unchanged by the converter: queries are re-laid out with n_head,
   keys with the key/value head count, and a query head meets a key head of the same size.
   */
  lemma AttentionPreserved(q: Layer, k: Layer, nHead: nat, nHeadKv: Option<nat>, kHeads: nat,
                           x: seq<real>, y: seq<real>, a: nat, b: nat, half: nat)
    requires kHeads == match nHeadKv case None => nHead case Some(n) => n
    requires Shaped(q, nHead * (2 * half), |x|) && Shaped(k, kHeads * (2 * half), |y|)
    requires a < nHead && b < kHeads
    ensures var q', k' := PermuteLayer(q, LlamaHeads(nHead, Some(nHead))), PermuteLayer(k, LlamaHeads(nHead, nHeadKv));
      ScoreKept(q, k, q', k', x, y, nHead, kHeads, 2 * half, a, b)
  {
    LayerPermuted(q, nHead, half);
    LayerPermuted(k, kHeads, half);
    ProjectPermuted(q, x, nHead, half);
    ProjectPermuted(k, y, kHeads, half);
    HeadPermuted(Project(q, x), nHead, half, a);
    HeadPermuted(Project(k, y), kHeads, half, b);
    DotWoven(Head(Project(q, x), nHead, 2 * half, a), Head(Project(k, y), kHeads, 2 * half, b), half);
  }

  lemma LayerPermuted(l: Layer, heads: nat, half: nat)
    requires heads > 0 && |l.weights| == |l.bias| == heads * (2 * half)
    ensures PermuteLayer(l, heads) == Success(InterleaveLayer(l, heads, half))
  {
    HalfOf(heads, half);
  }

  lemma HalfOf(heads: nat, half: nat)
    requires heads > 0
    ensures heads * (2 * half) / heads / 2 == half
  {
    Split(2 * half, heads, 0);
    assert heads * (2 * half) == 2 * half * heads + 0;
  }
}
