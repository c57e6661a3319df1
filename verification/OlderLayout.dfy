/**
 An older copy of the re-layout, which reads the key/value head count differently and is given the
 weights only.
 */
module OlderLayout {
  import opened Wrappers
  import opened HeadLayout

  /** The older copy of the re-layout divides the head count instead of replacing it. */
  function ReverseHeads(nHead: nat, nKvHead: Option<nat>): Result<nat, Error> {
    if nKvHead.None? || nHead == nKvHead.value then Success(nHead)
    else if nKvHead.value == 0 then Failure(ZeroDivision)
    else Success(nHead / nKvHead.value)
  }

  function ReversePermute<T>(weights: seq<T>, nHead: nat, nKvHead: Option<nat>): Result<seq<T>, Error> {
    match ReverseHeads(nHead, nKvHead)
    case Failure(e) => Failure(e)
    case Success(heads) => Permute(weights, heads)
  }

  /** The older copy is given the weights only: a bias stays as it is. */
  function ReversePermuteLayer(l: Layer, nHead: nat, nKvHead: Option<nat>): Result<Layer, Error> {
    match ReversePermute(l.weights, nHead, nKvHead)
    case Failure(e) => Failure(e)
    case Success(weights) => Success(Layer(weights, l.bias))
  }

  /** A number of rows the reshape accepts. */
  predicate Fits(rows: nat, heads: nat) {
    heads > 0 && rows == heads * (2 * (rows / heads / 2))
  }

  ghost predicate SameLayout(rows: nat, heads1: nat, heads2: nat) {
    forall w: seq<nat> :: |w| == rows ==> Permute(w, heads1) == Permute(w, heads2)
  }

  /** On a tensor the first reshape accepts, two head counts do the same exactly when they are equal. */
  lemma SameLayoutIff(rows: nat, heads1: nat, heads2: nat)
    requires rows > 0 && Fits(rows, heads1)
    ensures SameLayout(rows, heads1, heads2) <==> heads1 == heads2
  {
    if heads1 != heads2 {
      var w := DistinguishHeads(rows, heads1, heads2);
    }
  }

  /** With `per` query heads to each key/value head, the older copy interleaves as if there were `per` heads. */
  lemma OlderIsSwap<T>(weights: seq<T>, nHead: nat, kv: nat, per: nat, half: nat, h: nat, i: nat, j: nat,
                       at: nat, source: nat)
    requires nHead == kv * per && nHead != kv && kv > 0 && |weights| == per * (2 * half)
    requires h < per && i < 2 && j < half
    requires at == h * (2 * half) + (2 * j + i) && source == h * (2 * half) + (i * half + j)
    ensures var r := ReversePermute(weights, nHead, Some(kv));
      && r.Success? && |r.value| == |weights|
      && at < |weights| && source < |weights| && r.value[at] == weights[source]
  {
    Split(per, kv, 0);
    assert per * kv + 0 == nHead;
    assert nHead / kv == per;
    PermuteIsSwap(weights, per, half, h, i, j, at, source);
  }

  ghost predicate CopiesAgree(rows: nat, nHead: nat, nKvHead: Option<nat>) {
    forall w: seq<nat> :: |w| == rows ==> ReversePermute(w, nHead, nKvHead) == Permute(w, LlamaHeads(nHead, nKvHead))
  }

  /**
   The two copies of the re-layout do the same to every tensor the newer one accepts if and only if
   n_head is the key/value count or divides down to it.
   */
  lemma CopiesAgreeIff(rows: nat, nHead: nat, nKvHead: Option<nat>)
    requires rows > 0 && Fits(rows, LlamaHeads(nHead, nKvHead))
    ensures CopiesAgree(rows, nHead, nKvHead) <==>
      match nKvHead case None => true case Some(kv) => nHead == kv || (kv > 0 && nHead / kv == kv)
  {
    var heads := LlamaHeads(nHead, nKvHead);
    if nKvHead.None? || nHead == nKvHead.value || (nKvHead.value > 0 && nHead / nKvHead.value == nKvHead.value) {
      assert ReverseHeads(nHead, nKvHead) == Success(heads);
    } else {
      var w := DistinguishHeads(rows, heads, nHead / nKvHead.value);
    }
  }

  /** Numbered rows on which another head count fails or moves them elsewhere. */
  lemma DistinguishHeads(rows: nat, heads1: nat, heads2: nat) returns (w: seq<nat>)
    requires rows > 0 && heads1 != heads2 && Fits(rows, heads1)
    ensures |w| == rows && Permute(w, heads1).Success? && Permute(w, heads1) != Permute(w, heads2)
  {
    w := seq(rows, r => r);
    if Fits(rows, heads2) {
      var half1, half2 := rows / heads1 / 2, rows / heads2 / 2;
      SameHalves(rows, heads1, half1, heads2, half2);
      SecondRow(heads1, half1, w);
      SecondRow(heads2, half2, w);
    }
  }

  lemma SameHalves(rows: nat, heads1: nat, half1: nat, heads2: nat, half2: nat)
    requires 0 < rows == heads1 * (2 * half1) == heads2 * (2 * half2)
    ensures half1 == half2 <==> heads1 == heads2
  {
    if half1 == half2 {
      Cancel(heads1, heads2, 2 * half1);
    } else if heads1 == heads2 {
      Cancel(2 * half1, 2 * half2, heads1);
    }
  }

  /** The second row comes from the middle of the first head. */
  lemma SecondRow<T>(heads: nat, half: nat, w: seq<T>)
    requires 0 < heads * (2 * half) == |w|
    ensures half > 0 && 2 * half <= |w| && Interleave(w, heads, half)[1] == w[half]
  {
    Ordered(1, heads, 2 * half);
    SourceInHead(heads, half, 1);
    Split(0, 2 * half, 1);
  }

  lemma Cancel(a: nat, b: nat, size: nat)
    requires a * size == b * size && size > 0
    ensures a == b
  {
  }

  // ---------------------------------------------------------------- what the older copy does to attention

  /** With both layers re-laid out by the older copy, this score is what it was. */
  ghost predicate OlderKeeps(q: Layer, k: Layer, nHead: nat, nKvHead: nat, half: nat, x: seq<real>, y: seq<real>,
                             a: nat, b: nat)
  {
    Shaped(q, nHead * (2 * half), |x|) && Shaped(k, nKvHead * (2 * half), |y|) && a < nHead && b < nKvHead ==>
      ScoreKept(q, k, ReversePermuteLayer(q, nHead, Some(nHead)), ReversePermuteLayer(k, nHead, Some(nKvHead)),
                x, y, nHead, nKvHead, 2 * half, a, b)
  }

  ghost predicate NoBias(l: Layer) {
    forall r :: 0 <= r < |l.bias| ==> l.bias[r] == 0.0
  }

  ghost predicate OlderKeepsUnbiased(nHead: nat, nKvHead: nat, half: nat) {
    forall q, k, x, y, a: nat, b: nat :: NoBias(q) && NoBias(k) ==> OlderKeeps(q, k, nHead, nKvHead, half, x, y, a, b)
  }

  ghost predicate OlderKeepsAll(nHead: nat, nKvHead: nat, half: nat) {
    forall q, k, x, y, a: nat, b: nat :: OlderKeeps(q, k, nHead, nKvHead, half, x, y, a, b)
  }

  /**
   The older copy keeps every score of every model of these sizes without biases if and only if the
   two head counts agree.
   */
  lemma OlderKeepsIff(nHead: nat, nKvHead: nat, half: nat)
    requires nHead > 0 && nKvHead > 0 && half > 0
    ensures OlderKeepsUnbiased(nHead, nKvHead, half) <==> nHead == nKvHead || nHead / nKvHead == nKvHead
  {
    if nHead == nKvHead || nHead / nKvHead == nKvHead {
      forall q, k, x, y, a: nat, b: nat | NoBias(q) && NoBias(k)
        ensures OlderKeeps(q, k, nHead, nKvHead, half, x, y, a, b)
      {
        if Shaped(q, nHead * (2 * half), |x|) && Shaped(k, nKvHead * (2 * half), |y|) && a < nHead && b < nKvHead {
          UnbiasedStays(q, nHead, half);
          UnbiasedStays(k, nKvHead, half);
          KeptAsNewer(q, k, nHead, nKvHead, half, x, y, a, b);
        }
      }
    } else {
      var q, k := ScoreLost(nHead, nKvHead, half);
    }
  }

  /** With biases it keeps every score if and only if, besides, heads are of size two and nothing moves. */
  lemma OlderKeepsBiasedIff(nHead: nat, nKvHead: nat, half: nat)
    requires nHead > 0 && nKvHead > 0 && half > 0
    ensures OlderKeepsAll(nHead, nKvHead, half) <==> (nHead == nKvHead || nHead / nKvHead == nKvHead) && half == 1
  {
    if nHead != nKvHead && nHead / nKvHead != nKvHead {
      var q, k := ScoreLost(nHead, nKvHead, half);
    } else if half > 1 {
      BiasLost(nHead, nKvHead, half);
    } else {
      forall q, k, x, y, a: nat, b: nat ensures OlderKeeps(q, k, nHead, nKvHead, half, x, y, a, b) {
        if Shaped(q, nHead * (2 * half), |x|) && Shaped(k, nKvHead * (2 * half), |y|) && a < nHead && b < nKvHead {
          HalfOneStays(q.bias, nHead);
          HalfOneStays(k.bias, nKvHead);
          KeptAsNewer(q, k, nHead, nKvHead, half, x, y, a, b);
        }
      }
    }
  }

  /** Where its head count is the newer one and re-laying out the biases changes nothing, both do the same. */
  lemma KeptAsNewer(q: Layer, k: Layer, nHead: nat, nKvHead: nat, half: nat, x: seq<real>, y: seq<real>, a: nat, b: nat)
    requires nKvHead > 0 && (nHead == nKvHead || nHead / nKvHead == nKvHead)
    requires Shaped(q, nHead * (2 * half), |x|) && Shaped(k, nKvHead * (2 * half), |y|) && a < nHead && b < nKvHead
    requires Interleave(q.bias, nHead, half) == q.bias && Interleave(k.bias, nKvHead, half) == k.bias
    ensures OlderKeeps(q, k, nHead, nKvHead, half, x, y, a, b)
  {
    AttentionPreserved(q, k, nHead, Some(nKvHead), nKvHead, x, y, a, b, half);
    LayerPermuted(q, nHead, half);
    LayerPermuted(k, nKvHead, half);
  }

  lemma UnbiasedStays(l: Layer, heads: nat, half: nat)
    requires NoBias(l) && |l.bias| == heads * (2 * half)
    ensures Interleave(l.bias, heads, half) == l.bias
  {
    forall r | 0 <= r < |l.bias| ensures Interleave(l.bias, heads, half)[r] == l.bias[r] {
      SourceInHead(heads, half, r);
    }
  }

  /** Heads of two rows have nothing to interleave. */
  lemma HalfOneStays(rows: seq<real>, heads: nat)
    requires |rows| == heads * 2
    ensures Interleave(rows, heads, 1) == rows
  {
    forall r | 0 <= r < |rows| ensures Interleave(rows, heads, 1)[r] == rows[r] {
      var h, x := InHead(heads, 2, r);
      SourceInHead(heads, 1, r);
      assert Within(1, x) == x;
    }
  }

  /** Such as 32 query heads over 8 key heads. */
  lemma GroupedQueriesLost()
    ensures !OlderKeepsUnbiased(32, 8, 64)
  {
    OlderKeepsIff(32, 8, 64);
  }

  /** A key bias that meets the query in one place is missed once the query has moved and the bias has not. */
  lemma BiasLost(nHead: nat, nKvHead: nat, half: nat)
    requires nHead > 0 && nKvHead > 0 && half > 1 && (nHead == nKvHead || nHead / nKvHead == nKvHead)
    ensures !OlderKeepsAll(nHead, nKvHead, half)
  {
    var size := 2 * half;
    HeadBounds(nHead, size, 0);
    HeadBounds(nKvHead, size, 0);
    var query, bias := Unit(nHead * size, 1), Unit(nKvHead * size, 1);
    var q, k := Numbers(query), Biased(bias);
    QueryMoves(query, nHead, half);
    BiasStays(bias, nKvHead, half);
    ProjectNumbers(query);
    ProjectBiased(bias);
    DotUnit(Head(bias, nKvHead, size, 0), 1);
    DotUnit(Head(bias, nKvHead, size, 0), 2);
    assert Head(query, nHead, size, 0) == Unit(size, 1);
    assert !OlderKeeps(q, k, nHead, nKvHead, half, [1.0], [1.0], 0, 0);
  }

  lemma QueryMoves(query: seq<real>, heads: nat, half: nat)
    requires heads > 0 && half > 1 && query == Unit(heads * (2 * half), 1)
    ensures var q := ReversePermuteLayer(Numbers(query), heads, Some(heads));
      && q.Success? && Shaped(q.value, heads * (2 * half), 1)
      && Head(Project(q.value, [1.0]), heads, 2 * half, 0) == Unit(2 * half, 2)
  {
    HeadBounds(heads, 2 * half, 0);
    LayerPermuted(Numbers(query), heads, half);
    UnbiasedStays(Numbers(query), heads, half);
    ProjectPermuted(Numbers(query), [1.0], heads, half);
    ProjectNumbers(query);
    HeadPermuted(query, heads, half, 0);
    var head := Head(query, heads, 2 * half, 0);
    forall x | 0 <= x < 2 * half ensures Woven(head, half)[x] == Unit(2 * half, 2)[x] {
      WithinInverse(half, x);
      assert Within(half, x) == 1 <==> x == 2;
    }
  }

  /** A layer without weights is its bias, wherever its weights go. */
  ghost function Biased(bias: seq<real>): (l: Layer)
    ensures Shaped(l, |bias|, 1)
  {
    Layer(seq(|bias|, _ => [0.0]), bias)
  }

  lemma ProjectBiased(bias: seq<real>)
    ensures Project(Biased(bias), [1.0]) == bias
  {
    forall r | 0 <= r < |bias| ensures Project(Biased(bias), [1.0])[r] == bias[r] {
      var terms := Products([0.0], [1.0]);
      assert Total(terms, 0, 1) == Total(terms, 0, 0) + terms[0];
    }
  }

  lemma BiasStays(bias: seq<real>, heads: nat, half: nat)
    requires heads > 0 && |bias| == heads * (2 * half)
    ensures Permute(Biased(bias).weights, heads) == Success(Biased(bias).weights)
  {
    HalfOf(heads, half);
    var rows := Biased(bias).weights;
    forall r | 0 <= r < |rows| ensures Interleave(rows, heads, half)[r] == rows[r] {
      SourceInHead(heads, half, r);
    }
    assert Interleave(rows, heads, half) == rows;
  }

  /** A layer of one column, applied to one. */
  ghost function Numbers(values: seq<real>): (l: Layer)
    ensures Shaped(l, |values|, 1) && NoBias(l)
  {
    Layer(seq(|values|, r requires 0 <= r < |values| => [values[r]]), seq(|values|, _ => 0.0))
  }

  lemma ProjectNumbers(values: seq<real>)
    ensures Project(Numbers(values), [1.0]) == values
  {
    var l := Numbers(values);
    forall r | 0 <= r < |values| ensures Project(l, [1.0])[r] == values[r] {
      var terms := Products([values[r]], [1.0]);
      assert Total(terms, 0, 1) == Total(terms, 0, 0) + terms[0];
    }
  }

  ghost function Unit(size: nat, i: nat): (v: seq<real>)
    ensures |v| == size
  {
    seq(size, d => if d == i then 1.0 else 0.0)
  }

  lemma {:induction false} TotalUnit(q: seq<real>, i: nat, end: nat)
    requires i < |q| && end <= |q|
    ensures Total(Products(Unit(|q|, i), q), 0, end) == if i < end then q[i] else 0.0
  {
    if end > 0 {
      TotalUnit(q, i, end - 1);
    }
  }

  lemma DotUnit(q: seq<real>, i: nat)
    requires i < |q|
    ensures Dot(Unit(|q|, i), q) == q[i]
  {
    TotalUnit(q, i, |q|);
  }

  /** A query that reads one place of one key head sees another number there, if anything. */
  lemma ScoreLost(nHead: nat, nKvHead: nat, half: nat) returns (q: Layer, k: Layer)
    requires nHead > 0 && nKvHead > 0 && half > 0 && nHead != nKvHead && nHead / nKvHead != nKvHead
    ensures NoBias(q) && NoBias(k) && !OlderKeeps(q, k, nHead, nKvHead, half, [1.0], [1.0], 0, 0)
  {
    HeadBounds(nKvHead, 2 * half, 0);
    var query, keys := Unit(nHead * (2 * half), half), seq(nKvHead * (2 * half), r => r as real);
    q, k := Numbers(query), Numbers(keys);
    ScoreLostWith(query, keys, nHead, nKvHead, half, nHead / nKvHead);
    NotKept(query, keys, nHead, nKvHead, half);
  }

  lemma ScoreLostWith(query: seq<real>, keys: seq<real>, nHead: nat, nKvHead: nat, half: nat, heads: nat)
    requires nHead > 0 && nKvHead > 0 && half > 0 && heads != nKvHead
    requires ReverseHeads(nHead, Some(nKvHead)) == Success(heads)
    requires query == Unit(nHead * (2 * half), half)
    requires |keys| == nKvHead * (2 * half) && forall r :: 0 <= r < |keys| ==> keys[r] == r as real
    ensures !ScoreKept(Numbers(query), Numbers(keys), ReversePermuteLayer(Numbers(query), nHead, Some(nHead)),
                       ReversePermuteLayer(Numbers(keys), nHead, Some(nKvHead)),
                       [1.0], [1.0], nHead, nKvHead, 2 * half, 0, 0)
  {
    if Fits(|keys|, heads) {
      ReverseNumbers(query, nHead, Some(nHead), nHead, half);
      ReverseNumbers(keys, nHead, Some(nKvHead), heads, |keys| / heads / 2);
      ScoreDiffers(query, keys, nHead, nKvHead, half, heads);
    } else {
      NumbersRefused(keys, nHead, nKvHead, heads);
    }
  }

  lemma NumbersRefused(values: seq<real>, nHead: nat, nKvHead: nat, heads: nat)
    requires ReverseHeads(nHead, Some(nKvHead)) == Success(heads) && !Fits(|values|, heads)
    ensures ReversePermuteLayer(Numbers(values), nHead, Some(nKvHead)).Failure?
  {
  }

  lemma NotKept(query: seq<real>, keys: seq<real>, nHead: nat, nKvHead: nat, half: nat)
    requires nHead > 0 && nKvHead > 0 && |query| == nHead * (2 * half) && |keys| == nKvHead * (2 * half)
    requires !ScoreKept(Numbers(query), Numbers(keys), ReversePermuteLayer(Numbers(query), nHead, Some(nHead)),
                        ReversePermuteLayer(Numbers(keys), nHead, Some(nKvHead)),
                        [1.0], [1.0], nHead, nKvHead, 2 * half, 0, 0)
    ensures !OlderKeeps(Numbers(query), Numbers(keys), nHead, nKvHead, half, [1.0], [1.0], 0, 0)
  {
  }

  lemma ReverseNumbers(values: seq<real>, nHead: nat, nKvHead: Option<nat>, heads: nat, half: nat)
    requires ReverseHeads(nHead, nKvHead) == Success(heads) && heads > 0 && |values| == heads * (2 * half)
    ensures ReversePermuteLayer(Numbers(values), nHead, nKvHead) == PermuteLayer(Numbers(values), heads)
  {
    LayerPermuted(Numbers(values), heads, half);
    UnbiasedStays(Numbers(values), heads, half);
  }

  lemma ScoreDiffers(query: seq<real>, keys: seq<real>, nHead: nat, nKvHead: nat, half: nat, heads: nat)
    requires nHead > 0 && nKvHead > 0 && half > 0 && heads != nKvHead
    requires query == Unit(nHead * (2 * half), half)
    requires |keys| == nKvHead * (2 * half) && forall r :: 0 <= r < |keys| ==> keys[r] == r as real
    requires Fits(|keys|, heads)
    ensures !ScoreKept(Numbers(query), Numbers(keys), PermuteLayer(Numbers(query), nHead),
                       PermuteLayer(Numbers(keys), heads), [1.0], [1.0], nHead, nKvHead, 2 * half, 0, 0)
  {
    var other := |keys| / heads / 2;
    HeadBounds(nKvHead, 2 * half, 0);
    HalfOf(nKvHead, half);
    SameHalves(|keys|, nKvHead, half, heads, other);
    QueryReads(query, keys, nHead, nKvHead, half);
    QueryReadsOther(query, keys, nHead, nKvHead, half, heads, other);
  }

  lemma QueryReads(query: seq<real>, keys: seq<real>, nHead: nat, nKvHead: nat, half: nat)
    requires nHead > 0 && nKvHead > 0 && half > 0
    requires query == Unit(nHead * (2 * half), half) && |keys| == nKvHead * (2 * half)
    ensures 2 * half <= |keys|
    ensures Score(Numbers(query), Numbers(keys), [1.0], [1.0], nHead, nKvHead, 2 * half, 0, 0) == keys[half]
  {
    HeadBounds(nHead, 2 * half, 0);
    HeadBounds(nKvHead, 2 * half, 0);
    ProjectNumbers(query);
    ProjectNumbers(keys);
    assert Head(query, nHead, 2 * half, 0) == Unit(2 * half, half);
    DotUnit(Head(keys, nKvHead, 2 * half, 0), half);
  }

  /** After the re-layout the query reads the second place, and finds there what `heads` heads put there. */
  lemma QueryReadsOther(query: seq<real>, keys: seq<real>, nHead: nat, nKvHead: nat, half: nat, heads: nat, other: nat)
    requires nHead > 0 && nKvHead > 0 && half > 0
    requires query == Unit(nHead * (2 * half), half)
    requires |keys| == nKvHead * (2 * half) == heads * (2 * other) && heads > 0
    ensures 0 < other < |keys|
    ensures var q, k := PermuteLayer(Numbers(query), nHead), PermuteLayer(Numbers(keys), heads);
      && q.Success? && Shaped(q.value, nHead * (2 * half), 1)
      && k.Success? && Shaped(k.value, nKvHead * (2 * half), 1)
      && Score(q.value, k.value, [1.0], [1.0], nHead, nKvHead, 2 * half, 0, 0) == keys[other]
  {
    HeadBounds(nHead, 2 * half, 0);
    HeadBounds(nKvHead, 2 * half, 0);
    LayerPermuted(Numbers(query), nHead, half);
    LayerPermuted(Numbers(keys), heads, other);
    ProjectPermuted(Numbers(query), [1.0], nHead, half);
    ProjectPermuted(Numbers(keys), [1.0], heads, other);
    ProjectNumbers(query);
    ProjectNumbers(keys);
    HeadPermuted(query, nHead, half, 0);
    WovenUnit(Head(query, nHead, 2 * half, 0), half);
    SecondRow(heads, other, keys);
    DotUnit(Head(Interleave(keys, heads, other), nKvHead, 2 * half, 0), 1);
  }

  lemma WovenUnit(head: seq<real>, half: nat)
    requires half > 0 && head == Unit(2 * half, half)
    ensures Woven(head, half) == Unit(2 * half, 1)
  {
    forall x | 0 <= x < 2 * half ensures Woven(head, half)[x] == Unit(2 * half, 1)[x] {
      WithinInverse(half, x);
      assert Within(half, x) == half <==> x == 1;
    }
  }
}
