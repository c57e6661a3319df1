/**
 When a rank table and a list of merges split every text alike.

 It is enough that they do on the tokens of the table taken two by two, and on nothing less: a run
 never merges across a place where the two tokens beside it, on their own, stay apart.
 */
module EncodingAgreement {
  import opened Wrappers
  import opened BytePairEncoding

  // ---------------------------------------------------------------- cuts between parts

  /** Two parts meet after the first `n` bytes. */
  ghost predicate HasCut(parts: seq<Token>, n: nat) {
    exists k :: 0 <= k <= |parts| && |Joined(parts[..k])| == n
  }

  ghost predicate NonEmpty(parts: seq<Token>) {
    forall k :: 0 <= k < |parts| ==> parts[k] != []
  }

  lemma {:induction false} JoinedSplit(parts: seq<Token>, k: nat)
    requires k <= |parts|
    ensures Joined(parts) == Joined(parts[..k]) + Joined(parts[k..])
  {
    assert parts == parts[..k] + parts[k..];
    JoinedConcat(parts[..k], parts[k..]);
  }

  lemma {:induction false} PrefixGrows(parts: seq<Token>, i: nat, j: nat)
    requires NonEmpty(parts) && i < j <= |parts|
    ensures |Joined(parts[..i])| < |Joined(parts[..j])|
  {
    var last: seq<Token> := [parts[j - 1]];
    assert parts[..j] == parts[..j - 1] + last;
    JoinedConcat(parts[..j - 1], last);
    JoinedOne(parts[j - 1]);
    if i < j - 1 {
      PrefixGrows(parts, i, j - 1);
    }
  }

  /** The first parts of a merged state are the first parts before, one more of them past the merge. */
  lemma MergedPrefix(parts: seq<Token>, m: nat, k: nat)
    requires m + 1 < |parts| && k < |parts|
    ensures Joined(Merge(parts, m)[..k]) == Joined(parts[..if k <= m then k else k + 1])
  {
    if k <= m {
      assert Merge(parts, m)[..k] == parts[..k];
    } else {
      MergeInStretch(parts, 0, k, k + 1, m);
      assert parts[0..k + 1] == parts[..k + 1] && Merge(parts, m)[0..k] == Merge(parts, m)[..k];
      JoinedMerge(parts[..k + 1], m);
    }
  }

  /** Merging only ever removes cuts. */
  lemma {:induction false} CutKept(rule: Rule, start: seq<Token>, to: seq<Token>, n: nat)
    requires Reaches(rule, start, to) && HasCut(to, n)
    ensures HasCut(start, n)
    decreases |start|
  {
    if start != to {
      var m := Best(rule, start).value;
      CutKept(rule, Merge(start, m), to, n);
      var k :| 0 <= k <= |Merge(start, m)| && |Joined(Merge(start, m)[..k])| == n;
      MergedPrefix(start, m, k);
    }
  }

  /** And the one between the merged parts is gone. */
  lemma CutGone(parts: seq<Token>, m: nat)
    requires NonEmpty(parts) && m + 1 < |parts|
    ensures !HasCut(Merge(parts, m), |Joined(parts[..m + 1])|)
  {
    forall k | 0 <= k <= |Merge(parts, m)|
      ensures |Joined(Merge(parts, m)[..k])| != |Joined(parts[..m + 1])|
    {
      MergedPrefix(parts, m, k);
      if k <= m {
        PrefixGrows(parts, k, m + 1);
      } else {
        PrefixGrows(parts, m + 1, k + 1);
      }
    }
  }

  // ---------------------------------------------------------------- what a run keeps

  lemma {:induction false} RunKeeps(rule: Rule, parts: seq<Token>)
    ensures Joined(Run(rule, parts, None)) == Joined(parts)
    ensures NonEmpty(parts) ==> NonEmpty(Run(rule, parts, None))
    ensures parts != [] ==> Run(rule, parts, None) != []
    decreases |parts|
  {
    if Best(rule, parts).Some? {
      var m := Best(rule, parts).value;
      JoinedMerge(parts, m);
      if NonEmpty(parts) {
        NonEmptyMerge(parts, m);
      }
      RunKeeps(rule, Merge(parts, m));
    }
  }

  lemma SamePrefix(a: Token, b: Token, c: Token, d: Token)
    requires a + b == c + d && |a| == |c|
    ensures a == c && b == d
  {
    assert (a + b)[..|a|] == a && (c + d)[..|a|] == c;
    assert (a + b)[|a|..] == b && (c + d)[|a|..] == d;
  }

  /** The parts that the last part of the end is made of. */
  lemma LastPartOf(rule: Rule, parts: seq<Token>) returns (k: nat)
    requires parts != [] && NonEmpty(parts)
    ensures k < |parts|
    ensures var end := Run(rule, parts, None); end != [] && Joined(parts[k..]) == end[|end| - 1]
  {
    var end := Run(rule, parts, None);
    RunKeeps(rule, parts);
    ReachesEnd(rule, parts);
    var last := |end| - 1;
    assert HasCut(end, |Joined(end[..last])|);
    CutKept(rule, parts, end, |Joined(end[..last])|);
    k :| 0 <= k <= |parts| && |Joined(parts[..k])| == |Joined(end[..last])|;
    JoinedSplit(parts, k);
    JoinedSplit(end, last);
    JoinedOne(end[last]);
    assert end[last..] == [end[last]];
    SamePrefix(Joined(parts[..k]), Joined(parts[k..]), Joined(end[..last]), end[last]);
  }

  /** The parts that the first part of the end is made of. */
  lemma FirstPartOf(rule: Rule, parts: seq<Token>) returns (k: nat)
    requires parts != [] && NonEmpty(parts)
    ensures 0 < k <= |parts|
    ensures var end := Run(rule, parts, None); end != [] && Joined(parts[..k]) == end[0]
  {
    var end := Run(rule, parts, None);
    RunKeeps(rule, parts);
    ReachesEnd(rule, parts);
    assert end[..1] == [end[0]];
    JoinedOne(end[0]);
    assert HasCut(end, |Joined(end[..1])|);
    CutKept(rule, parts, end, |end[0]|);
    k :| 0 <= k <= |parts| && |Joined(parts[..k])| == |end[0]|;
    JoinedSplit(parts, k);
    JoinedSplit(end, 1);
    SamePrefix(Joined(parts[..k]), Joined(parts[k..]), end[0], Joined(end[1..]));
  }

  // ---------------------------------------------------------------- merging never crosses such a place

  /** The last part of `x` and the first of `y` stay apart on their own. */
  ghost predicate Apart(rule: Rule, x: seq<Token>, y: seq<Token>) {
    x != [] && y != [] && Encode(rule, x[|x| - 1] + y[0]) == [x[|x| - 1], y[0]]
  }

  ghost predicate Reached(rule: Rule, parts: seq<Token>) {
    NonEmpty(parts) && Reaches(rule, Bytes(Joined(parts)), parts)
  }

  lemma NonEmptySides(left: seq<Token>, right: seq<Token>)
    requires NonEmpty(left + right)
    ensures NonEmpty(left) && NonEmpty(right)
  {
    assert forall k :: 0 <= k < |left| ==> left[k] == (left + right)[k];
    assert forall k :: 0 <= k < |right| ==> right[k] == (left + right)[|left| + k];
  }

  lemma NonEmptyStretch(parts: seq<Token>, i: nat, j: nat)
    requires NonEmpty(parts) && i <= j <= |parts|
    ensures NonEmpty(parts[i..j])
  {
  }

  lemma NeverAcross(rule: Rule, left: seq<Token>, right: seq<Token>)
    requires left != [] && right != [] && Reached(rule, left + right)
    requires Apart(rule, Run(rule, left, None), Run(rule, right, None))
    ensures Best(rule, left + right) != Some(|left| - 1)
  {
    NonEmptySides(left, right);
    var i := LastPartOf(rule, left);
    var j := FirstPartOf(rule, right);
    NotAcross(rule, left + right, left, right, i, j, left[i..], right[..j]);
  }

  lemma NotAcross(rule: Rule, parts: seq<Token>, left: seq<Token>, right: seq<Token>, i: nat, j: nat,
                  a: seq<Token>, b: seq<Token>)
    requires parts == left + right && i < |left| && 0 < j <= |right| && Reached(rule, parts)
    requires a == left[i..] && b == right[..j]
    requires Encode(rule, Joined(a) + Joined(b)) == [Joined(a), Joined(b)]
    ensures Best(rule, parts) != Some(|left| - 1)
  {
    if Best(rule, parts) == Some(|left| - 1) {
      Around(rule, parts, left, right, i, |left| + j, j, a, b);
      CutBetween(rule, a, b);
    }
  }

  /** The parts around the place, as a stretch of the state. */
  lemma Around(rule: Rule, parts: seq<Token>, left: seq<Token>, right: seq<Token>, i: nat, to: nat, j: nat,
               a: seq<Token>, b: seq<Token>)
    requires parts == left + right && i < |left| && 0 < j <= |right| && to == |left| + j
    requires a == left[i..] && b == right[..j]
    requires Reached(rule, parts) && Best(rule, parts) == Some(|left| - 1)
    ensures a != [] && b != [] && NonEmpty(a + b)
    ensures Reaches(rule, Bytes(Joined(a) + Joined(b)), a + b)
    ensures Best(rule, a + b) == Some(|a| - 1)
  {
    StretchAcross(left, right, i, to, j);
    NonEmptyStretch(parts, i, to);
    BytesAreLocal(rule, Joined(parts));
    RunsAreLocal(rule, Bytes(Joined(parts)), parts);
    assert StretchReached(rule, parts, i, to);
    BestOfStretch(rule, parts, i, to);
    JoinedConcat(a, b);
  }

  lemma StretchAcross(left: seq<Token>, right: seq<Token>, i: nat, to: nat, j: nat)
    requires i <= |left| && j <= |right| && to == |left| + j
    ensures (left + right)[i..to] == left[i..] + right[..j]
  {
  }

  /** Merging the parts on both sides of a cut is not the way to an end that has it. */
  lemma CutBetween(rule: Rule, left: seq<Token>, right: seq<Token>)
    requires left != [] && right != [] && NonEmpty(left + right)
    requires Reaches(rule, Bytes(Joined(left) + Joined(right)), left + right)
    requires Encode(rule, Joined(left) + Joined(right)) == [Joined(left), Joined(right)]
    ensures Best(rule, left + right) != Some(|left| - 1)
  {
    var parts, m := left + right, |left| - 1;
    if Best(rule, parts) == Some(m) {
      ReachesSameEnd(rule, Bytes(Joined(left) + Joined(right)), parts);
      ReachesEnd(rule, Merge(parts, m));
      CutOfTwo(Joined(left), Joined(right));
      CutKept(rule, Merge(parts, m), [Joined(left), Joined(right)], |Joined(left)|);
      assert parts[..m + 1] == left;
      CutGone(parts, m);
    }
  }

  lemma CutOfTwo(x: Token, y: Token)
    ensures HasCut([x, y], |x|)
  {
    var end: seq<Token> := [x, y];
    assert end[..1] == [x];
    JoinedOne(x);
  }

  lemma BestNoneInStretch(rule: Rule, parts: seq<Token>, i: nat, j: nat)
    requires i <= j <= |parts| && Best(rule, parts).None?
    ensures Best(rule, parts[i..j]).None?
  {
    forall k | 0 <= k < PairCount(parts[i..j]) ensures PriorityAt(rule, parts[i..j], k).None? {
      assert PriorityAt(rule, parts[i..j], k) == PriorityAt(rule, parts, i + k);
    }
  }

  /** Each side is then merged on its own, to `x` and to `y`. */
  lemma {:induction false} RunSplits(rule: Rule, parts: seq<Token>, left: seq<Token>, right: seq<Token>,
                                     x: seq<Token>, y: seq<Token>)
    requires parts == left + right && left != [] && right != [] && Reached(rule, parts)
    requires x == Run(rule, left, None) && y == Run(rule, right, None) && Apart(rule, x, y)
    ensures Run(rule, parts, None) == x + y
    decreases |parts|
  {
    match Best(rule, parts)
    case None => NothingOnEitherSide(rule, parts, left, right);
    case Some(m) =>
      NeverAcross(rule, left, right);
      ReachedStep(rule, parts, m);
      if m < |left| {
        StepLeft(rule, parts, left, right, m);
        RunSplits(rule, Merge(parts, m), Merge(left, m), right, x, y);
      } else {
        var k := m - |left|;
        StepRight(rule, parts, left, right, m, k);
        RunSplits(rule, Merge(parts, m), left, Merge(right, k), x, y);
      }
  }

  lemma NothingOnEitherSide(rule: Rule, parts: seq<Token>, left: seq<Token>, right: seq<Token>)
    requires parts == left + right && Best(rule, parts).None?
    ensures Best(rule, left).None? && Best(rule, right).None?
  {
    assert parts[0..|left|] == left && parts[|left|..|parts|] == right;
    BestNoneInStretch(rule, parts, 0, |left|);
    BestNoneInStretch(rule, parts, |left|, |parts|);
  }

  lemma StepLeft(rule: Rule, parts: seq<Token>, left: seq<Token>, right: seq<Token>, m: nat)
    requires parts == left + right && Best(rule, parts) == Some(m) && m + 1 < |left|
    ensures Merge(parts, m) == Merge(left, m) + right
    ensures Run(rule, parts, None) == Run(rule, Merge(parts, m), None)
    ensures Run(rule, left, None) == Run(rule, Merge(left, m), None)
  {
    assert parts[0..|left|] == left;
    BestOfStretch(rule, parts, 0, |left|);
    MergeLeft(left, right, m);
    RunStep(rule, parts, m);
    RunStep(rule, left, m);
  }

  lemma StepRight(rule: Rule, parts: seq<Token>, left: seq<Token>, right: seq<Token>, m: nat, k: nat)
    requires parts == left + right && Best(rule, parts) == Some(m) && m == |left| + k && k + 1 < |right|
    ensures Merge(parts, m) == left + Merge(right, k)
    ensures Run(rule, parts, None) == Run(rule, Merge(parts, m), None)
    ensures Run(rule, right, None) == Run(rule, Merge(right, k), None)
  {
    assert parts[|left|..|parts|] == right;
    BestOfStretch(rule, parts, |left|, |parts|);
    MergeRight(left, right, k, m);
    RunStep(rule, parts, m);
    RunStep(rule, right, k);
  }

  lemma RunStep(rule: Rule, parts: seq<Token>, m: nat)
    requires Best(rule, parts) == Some(m)
    ensures Run(rule, parts, None) == Run(rule, Merge(parts, m), None)
  {
  }

  lemma ReachedStep(rule: Rule, parts: seq<Token>, m: nat)
    requires Reached(rule, parts) && Best(rule, parts) == Some(m)
    ensures Reached(rule, Merge(parts, m))
  {
    JoinedMerge(parts, m);
    NonEmptyMerge(parts, m);
    ReachesStep(rule, Bytes(Joined(parts)), parts);
  }

  lemma NonEmptyMerge(parts: seq<Token>, m: nat)
    requires NonEmpty(parts) && m + 1 < |parts|
    ensures NonEmpty(Merge(parts, m))
  {
  }

  lemma MergeLeft(left: seq<Token>, right: seq<Token>, m: nat)
    requires m + 1 < |left|
    ensures Merge(left + right, m) == Merge(left, m) + right
  {
  }

  lemma MergeRight(left: seq<Token>, right: seq<Token>, m: nat, m': nat)
    requires m + 1 < |right| && m' == |left| + m
    ensures Merge(left + right, m') == left + Merge(right, m)
  {
  }

  lemma BytesConcat(x: Token, y: Token)
    ensures Bytes(x + y) == Bytes(x) + Bytes(y)
    ensures NonEmpty(Bytes(x + y))
  {
  }

  /** Where two texts meet, it is enough to look at the two tokens beside the place. */
  lemma EncodeSplits(rule: Rule, x: Token, y: Token)
    requires x != [] && y != [] && Apart(rule, Encode(rule, x), Encode(rule, y))
    ensures Encode(rule, x + y) == Encode(rule, x) + Encode(rule, y)
  {
    BytesConcat(x, y);
    JoinedBytes(x + y);
    RunSplits(rule, Bytes(x + y), Bytes(x), Bytes(y), Encode(rule, x), Encode(rule, y));
  }

  // ---------------------------------------------------------------- the table and the list

  ghost predicate Agree(ranks: Ranks, merges: seq<Pair>, text: Token) {
    Encode(ByList(merges), text) == Encode(ByRank(ranks), text)
  }

  ghost predicate IsToken(ranks: Ranks, u: Token) {
    |u| == 1 || u in ranks
  }

  ghost predicate AgreeOnPairs(ranks: Ranks, merges: seq<Pair>) {
    forall u, v :: IsToken(ranks, u) && IsToken(ranks, v) ==> Agree(ranks, merges, u + v)
  }

  /**
   For every table and every list, whatever their order: they split every text alike if and only if
   they split any two tokens alike.
   */
  lemma AgreeIff(ranks: Ranks, merges: seq<Pair>)
    ensures (forall text :: Agree(ranks, merges, text)) <==> AgreeOnPairs(ranks, merges)
  {
    if AgreeOnPairs(ranks, merges) {
      forall text ensures Agree(ranks, merges, text) {
        var parts := Encode(ByRank(ranks), text);
        AgreeOnParts(ranks, merges, text, |parts|);
        assert parts[..|parts|] == parts;
        RunKeeps(ByRank(ranks), Bytes(text));
        JoinedBytes(text);
      }
    }
  }

  /** Any stretch of what a text is split into is what that stretch is split into. */
  lemma StretchOfEnd(rule: Rule, text: Token, i: nat, j: nat)
    requires i <= j <= |Encode(rule, text)|
    ensures Encode(rule, Joined(Encode(rule, text)[i..j])) == Encode(rule, text)[i..j]
  {
    var parts := Encode(rule, text);
    ReachesEnd(rule, Bytes(text));
    BytesAreLocal(rule, text);
    RunsAreLocal(rule, Bytes(text), parts);
    assert StretchReached(rule, parts, i, j);
    BestNoneInStretch(rule, parts, i, j);
    ReachesSameEnd(rule, Bytes(Joined(parts[i..j])), parts[i..j]);
  }

  /** The last merge of a run that ends in one part. */
  lemma {:induction false} LastMerge(rule: Rule, parts: seq<Token>) returns (two: seq<Token>)
    requires |parts| > 1 && |Run(rule, parts, None)| == 1
    ensures |two| == 2 && Reaches(rule, parts, two) && Run(rule, parts, None) == [At(two, 0)]
    decreases |parts|
  {
    var m := Best(rule, parts).value;
    if |parts| == 2 {
      two := parts;
      assert Merge(parts, m) == [At(parts, 0)];
    } else {
      two := LastMerge(rule, Merge(parts, m));
    }
  }

  lemma {:induction false} ReachedTokens(ranks: Ranks, start: seq<Token>, to: seq<Token>)
    requires Reaches(ByRank(ranks), start, to) && forall k :: 0 <= k < |start| ==> IsToken(ranks, start[k])
    ensures forall k :: 0 <= k < |to| ==> IsToken(ranks, to[k])
    decreases |start|
  {
    if start != to {
      ReachedTokens(ranks, Merge(start, Best(ByRank(ranks), start).value), to);
    }
  }

  /** What the table makes one token of, so does the list. */
  lemma TokenWhole(ranks: Ranks, merges: seq<Pair>, token: Token)
    requires AgreeOnPairs(ranks, merges) && Encode(ByRank(ranks), token) == [token]
    ensures Encode(ByList(merges), token) == [token]
  {
    if |token| > 1 {
      var two := LastMerge(ByRank(ranks), Bytes(token));
      ReachedTokens(ranks, Bytes(token), two);
      assert Agree(ranks, merges, two[0] + two[1]);
    } else {
      RunKeeps(ByRank(ranks), Bytes(token));
    }
  }

  /** The list splits the first `n` tokens as the table does, one token more at a time. */
  lemma {:induction false} AgreeOnParts(ranks: Ranks, merges: seq<Pair>, text: Token, n: nat)
    requires AgreeOnPairs(ranks, merges) && n <= |Encode(ByRank(ranks), text)|
    ensures var parts := Encode(ByRank(ranks), text); Encode(ByList(merges), Joined(parts[..n])) == parts[..n]
  {
    var parts := Encode(ByRank(ranks), text);
    if n > 0 {
      var last := n - 1;
      AgreeOnParts(ranks, merges, text, last);
      OneTokenMore(ranks, merges, text, parts, last, n);
    }
  }

  lemma OneTokenMore(ranks: Ranks, merges: seq<Pair>, text: Token, parts: seq<Token>, last: nat, n: nat)
    requires AgreeOnPairs(ranks, merges) && parts == Encode(ByRank(ranks), text) && n == last + 1 <= |parts|
    requires Encode(ByList(merges), Joined(parts[..last])) == parts[..last]
    ensures Encode(ByList(merges), Joined(parts[..n])) == parts[..n]
  {
    var token := parts[last];
    OneTokenWhole(ranks, merges, text, parts, last, n, token);
    if last == 0 {
      FirstToken(ByList(merges), parts, token);
    } else {
      var prev := parts[last - 1];
      TwoTokensApart(ranks, merges, text, parts, last - 1, last);
      NextToken(ByList(merges), parts, last, n, parts[..last], prev, token);
    }
  }

  lemma FirstToken(rule: Rule, parts: seq<Token>, token: Token)
    requires parts != [] && token == parts[0] && Encode(rule, token) == [token]
    ensures Encode(rule, Joined(parts[..1])) == parts[..1]
  {
    assert parts[..1] == [token];
    JoinedOne(token);
  }

  lemma NextToken(rule: Rule, parts: seq<Token>, last: nat, n: nat, before: seq<Token>, prev: Token, token: Token)
    requires n == last + 1 <= |parts| && before == parts[..last] && before != []
    requires token == parts[last] && prev == before[|before| - 1]
    requires Encode(rule, Joined(before)) == before && Encode(rule, token) == [token]
    requires Encode(rule, prev + token) == [prev, token]
    ensures Encode(rule, Joined(parts[..n])) == parts[..n]
  {
    JoinedSnoc(parts, last, n, before, token);
    EncodeSplits(rule, Joined(before), token);
  }

  lemma OneTokenWhole(ranks: Ranks, merges: seq<Pair>, text: Token, parts: seq<Token>, i: nat, next: nat, token: Token)
    requires AgreeOnPairs(ranks, merges) && parts == Encode(ByRank(ranks), text)
    requires next == i + 1 <= |parts| && token == parts[i]
    ensures Encode(ByList(merges), token) == [token]
  {
    StretchOfEnd(ByRank(ranks), text, i, next);
    assert parts[i..next] == [token];
    JoinedOne(token);
    TokenWhole(ranks, merges, token);
  }

  lemma JoinedSnoc(parts: seq<Token>, last: nat, n: nat, before: seq<Token>, token: Token)
    requires n == last + 1 <= |parts| && before == parts[..last] && token == parts[last]
    ensures parts[..n] == before + [token] && Joined(parts[..n]) == Joined(before) + token
  {
    var one: seq<Token> := [token];
    assert parts[..n] == before + one;
    JoinedConcat(before, one);
    JoinedOne(token);
  }

  lemma TwoTokensApart(ranks: Ranks, merges: seq<Pair>, text: Token, parts: seq<Token>, i: nat, j: nat)
    requires AgreeOnPairs(ranks, merges) && parts == Encode(ByRank(ranks), text) && j == i + 1 < |parts|
    ensures Encode(ByList(merges), parts[i] + parts[j]) == [parts[i], parts[j]]
  {
    StretchOfEnd(ByRank(ranks), text, i, j + 1);
    assert parts[i..j + 1] == [parts[i], parts[j]];
    JoinedTwo(parts[i], parts[j]);
    ReachesEnd(ByRank(ranks), Bytes(text));
    ReachedTokens(ranks, Bytes(text), parts);
    assert Agree(ranks, merges, parts[i] + parts[j]);
  }
}
