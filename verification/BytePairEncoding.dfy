/**
 Byte-pair encoding: adjacent parts of a text are merged one pair at a time, the most urgent first.

 How urgent a pair is, is given by a rank table or by a list of merges.  Whatever it is, runs are
 local: what happens in a stretch of the text does not depend on the rest of it.
 */
module BytePairEncoding {
  import opened Wrappers

  type Byte = b: int | 0 <= b < 256 witness 0

  type Token = seq<Byte>

  type Ranks = map<Token, int>

  type Pair = (Token, Token)

  // ---------------------------------------------------------------- the encoder as a function

  /** One part per byte. */
  function Bytes(token: Token): (parts: seq<Token>)
    ensures |parts| == |token|
    ensures forall i :: 0 <= i < |parts| ==> parts[i] == [token[i]]
  {
    seq(|token|, i requires 0 <= i < |token| => [token[i]])
  }

  function Joined(parts: seq<Token>): Token {
    if parts == [] then [] else parts[0] + Joined(parts[1..])
  }

  /** The two parts at `i` joined: what the table is asked about. */
  function At(parts: seq<Token>, i: nat): Token
    requires i + 1 < |parts|
  {
    parts[i] + parts[i + 1]
  }

  /**
   How urgently two adjacent parts are merged, least first: by the rank of what they make together,
   or by their place in a list of merges.
   */
  datatype Rule = ByRank(ranks: Ranks) | ByList(merges: seq<Pair>)

  function Priority(rule: Rule, pair: Pair): Option<int> {
    match rule
    case ByRank(ranks) => if pair.0 + pair.1 in ranks then Some(ranks[pair.0 + pair.1]) else None
    case ByList(merges) => if pair in merges then Some(Index(merges, pair)) else None
  }

  function Index(merges: seq<Pair>, pair: Pair): (k: nat)
    requires pair in merges
    ensures k < |merges| && merges[k] == pair && pair !in merges[..k]
  {
    if merges[0] == pair then 0
    else
      assert merges == [merges[0]] + merges[1..];
      var k := 1 + Index(merges[1..], pair);
      assert merges[..k] == [merges[0]] + merges[1..][..k - 1];
      k
  }

  function PriorityAt(rule: Rule, parts: seq<Token>, i: nat): Option<int>
    requires i + 1 < |parts|
  {
    Priority(rule, (parts[i], parts[i + 1]))
  }

  /** Among the first `n` adjacent pairs, `i` is the leftmost of least priority. */
  ghost predicate IsBest(rule: Rule, parts: seq<Token>, n: nat, i: nat)
    requires n < |parts| || n == 0
  {
    && i < n
    && PriorityAt(rule, parts, i).Some?
    && (forall j :: 0 <= j < n && PriorityAt(rule, parts, j).Some? ==>
          PriorityAt(rule, parts, i).value <= PriorityAt(rule, parts, j).value)
    && (forall j :: 0 <= j < i && PriorityAt(rule, parts, j).Some? ==>
          PriorityAt(rule, parts, i).value < PriorityAt(rule, parts, j).value)
  }

  function PairCount(parts: seq<Token>): (n: nat)
    ensures n == 0 || n + 1 == |parts|
  {
    if |parts| == 0 then 0 else |parts| - 1
  }

  /** The pair merged next, None when no adjacent pair has a priority. */
  function Best(rule: Rule, parts: seq<Token>): (best: Option<nat>)
    ensures best.Some? ==> IsBest(rule, parts, PairCount(parts), best.value)
    ensures best.None? ==> forall j :: 0 <= j < PairCount(parts) ==> PriorityAt(rule, parts, j).None?
  {
    BestOf(rule, parts, PairCount(parts))
  }

  function BestOf(rule: Rule, parts: seq<Token>, n: nat): (best: Option<nat>)
    requires n < |parts| || n == 0
    ensures best.Some? ==> IsBest(rule, parts, n, best.value)
    ensures best.None? ==> forall j :: 0 <= j < n ==> PriorityAt(rule, parts, j).None?
  {
    if n == 0 then None
    else
      var before, here := BestOf(rule, parts, n - 1), PriorityAt(rule, parts, n - 1);
      if here.Some? && (before.None? || here.value < PriorityAt(rule, parts, before.value).value)
      then Some(n - 1)
      else before
  }

  function Merge(parts: seq<Token>, i: nat): (merged: seq<Token>)
    requires i + 1 < |parts|
    ensures |merged| == |parts| - 1
  {
    parts[..i] + [At(parts, i)] + parts[i + 2..]
  }

  /** Whether a pair of this priority ends a run bounded by `bound`. */
  predicate Stops(bound: Option<int>, priority: int) {
    bound.Some? && priority >= bound.value
  }

  /** The whole run from `parts`. */
  function Run(rule: Rule, parts: seq<Token>, bound: Option<int>): seq<Token>
    decreases |parts|
  {
    match Best(rule, parts)
    case None => parts
    case Some(i) =>
      if Stops(bound, PriorityAt(rule, parts, i).value) then parts else Run(rule, Merge(parts, i), bound)
  }

  /** How a rank table, or a list of merges, splits a text. */
  function Encode(rule: Rule, text: Token): seq<Token> {
    Run(rule, Bytes(text), None)
  }

  // ---------------------------------------------------------------- the encoder as the loop it is

  method Bpe(ranks: Ranks, token: Token, maxRank: Option<int>) returns (parts: seq<Token>)
    ensures parts == Run(ByRank(ranks), Bytes(token), maxRank)
  {
    parts := Bytes(token);
    while true
      invariant Run(ByRank(ranks), parts, maxRank) == Run(ByRank(ranks), Bytes(token), maxRank)
      decreases |parts|
    {
      var minIdx, minRank := LeastPair(ranks, parts);
      RunNext(ranks, parts, maxRank, minIdx, minRank);
      if minRank.None? || (maxRank.Some? && minRank.value >= maxRank.value) {
        break;
      }
      parts := parts[..minIdx.value]
            + [parts[minIdx.value] + parts[minIdx.value + 1]]
            + parts[minIdx.value + 2..];
    }
  }

  /** The inner loop: the leftmost adjacent pair of least rank. */
  method LeastPair(ranks: Ranks, parts: seq<Token>) returns (minIdx: Option<nat>, minRank: Option<int>)
    ensures minIdx == Best(ByRank(ranks), parts) && minIdx.Some? == minRank.Some?
    ensures minIdx.Some? ==> At(parts, minIdx.value) in ranks && minRank == Some(ranks[At(parts, minIdx.value)])
  {
    minIdx, minRank := None, None;
    for i := 0 to PairCount(parts)
      invariant minIdx.Some? == minRank.Some?
      invariant minIdx == BestOf(ByRank(ranks), parts, i)
      invariant minIdx.Some? ==> At(parts, minIdx.value) in ranks && minRank == Some(ranks[At(parts, minIdx.value)])
    {
      BestOfNext(ranks, parts, i, i + 1, minIdx);
      var pair := parts[i] + parts[i + 1];
      if pair in ranks && (minRank.None? || ranks[pair] < minRank.value) {
        minIdx, minRank := Some(i), Some(ranks[pair]);
      }
    }
  }

  lemma BestOfNext(ranks: Ranks, parts: seq<Token>, i: nat, next: nat, before: Option<nat>)
    requires next == i + 1 < |parts| && before == BestOf(ByRank(ranks), parts, i)
    ensures before.Some? ==> before.value < i && At(parts, before.value) in ranks
    ensures BestOf(ByRank(ranks), parts, next) ==
      if At(parts, i) in ranks && (before.None? || ranks[At(parts, i)] < ranks[At(parts, before.value)]) then Some(i)
      else before
  {
    RankedAt(ranks, parts, i);
    if before.Some? {
      RankedAt(ranks, parts, before.value);
    }
  }

  lemma RankedAt(ranks: Ranks, parts: seq<Token>, i: nat)
    requires i + 1 < |parts|
    ensures PriorityAt(ByRank(ranks), parts, i) == if At(parts, i) in ranks then Some(ranks[At(parts, i)]) else None
  {
  }

  /** What the loop does with the pair it found. */
  lemma RunNext(ranks: Ranks, parts: seq<Token>, bound: Option<int>, minIdx: Option<nat>, minRank: Option<int>)
    requires minIdx == Best(ByRank(ranks), parts) && minIdx.Some? == minRank.Some?
    requires minIdx.Some? ==> At(parts, minIdx.value) in ranks && minRank == Some(ranks[At(parts, minIdx.value)])
    ensures Run(ByRank(ranks), parts, bound) ==
      if minRank.None? || (bound.Some? && minRank.value >= bound.value) then parts
      else Run(ByRank(ranks), Merge(parts, minIdx.value), bound)
  {
    if minIdx.Some? {
      RankedAt(ranks, parts, minIdx.value);
    }
  }

  // ---------------------------------------------------------------- what a run ends in

  lemma {:induction false} JoinedConcat(a: seq<Token>, b: seq<Token>)
    ensures Joined(a + b) == Joined(a) + Joined(b)
  {
    if a == [] {
      assert a + b == b;
    } else {
      assert (a + b)[1..] == a[1..] + b;
      JoinedConcat(a[1..], b);
    }
  }

  lemma {:induction false} JoinedBytes(token: Token)
    ensures Joined(Bytes(token)) == token
  {
    if token != [] {
      assert Bytes(token)[1..] == Bytes(token[1..]);
      JoinedBytes(token[1..]);
      assert token == [token[0]] + token[1..];
    }
  }

  lemma JoinedTwo(a: Token, b: Token)
    ensures Joined([a, b]) == a + b
  {
    var last: seq<Token> := [b];
    assert [a, b][1..] == last && last[1..] == [];
    assert Joined(last) == b + [] == b;
  }

  lemma JoinedMerge(parts: seq<Token>, i: nat)
    requires i + 1 < |parts|
    ensures Joined(Merge(parts, i)) == Joined(parts)
  {
    var a, pair, c := parts[..i], [parts[i], parts[i + 1]], parts[i + 2..];
    JoinedTwo(parts[i], parts[i + 1]);
    JoinedOne(At(parts, i));
    JoinedAround(a, pair, [At(parts, i)], c);
    TakenApart(parts, i);
  }

  lemma TakenApart(parts: seq<Token>, i: nat)
    requires i + 1 < |parts|
    ensures parts == parts[..i] + [parts[i], parts[i + 1]] + parts[i + 2..]
  {
  }

  lemma JoinedAround(a: seq<Token>, b: seq<Token>, b': seq<Token>, c: seq<Token>)
    requires Joined(b) == Joined(b')
    ensures Joined(a + b + c) == Joined(a + b' + c)
  {
    JoinedThree(a, b, c);
    JoinedThree(a, b', c);
  }

  lemma JoinedOne(a: Token)
    ensures Joined([a]) == a
  {
    var one: seq<Token> := [a];
    assert one[1..] == [];
  }

  lemma JoinedThree(a: seq<Token>, b: seq<Token>, c: seq<Token>)
    ensures Joined(a + b + c) == Joined(a) + Joined(b) + Joined(c)
  {
    JoinedConcat(a + b, c);
    JoinedConcat(a, b);
  }

  /** A part that no merge could have been skipped for: one byte, or a ranked token under the bound. */
  ghost predicate Built(ranks: Ranks, bound: Option<int>, part: Token) {
    |part| == 1 || (|part| > 1 && part in ranks && !Stops(bound, ranks[part]))
  }

  /** The end of every run: nothing lost, nothing unranked, nothing left to merge. */
  lemma {:induction false} EndState(ranks: Ranks, parts: seq<Token>, bound: Option<int>)
    requires forall k :: 0 <= k < |parts| ==> Built(ranks, bound, parts[k])
    ensures var end := Run(ByRank(ranks), parts, bound);
      && Joined(end) == Joined(parts)
      && (forall k :: 0 <= k < |end| ==> Built(ranks, bound, end[k]))
      && (forall j :: 0 <= j < PairCount(end) && At(end, j) in ranks ==> Stops(bound, ranks[At(end, j)]))
    decreases |parts|
  {
    RankedPairs(ranks, parts);
    match Best(ByRank(ranks), parts)
    case None =>
    case Some(i) =>
      if !Stops(bound, ranks[At(parts, i)]) {
        JoinedMerge(parts, i);
        EndState(ranks, Merge(parts, i), bound);
      }
  }

  /** In a rank table the priority of a pair is the rank of what it makes. */
  lemma RankedPairs(ranks: Ranks, parts: seq<Token>)
    ensures forall j :: 0 <= j < PairCount(parts) && At(parts, j) in ranks ==>
              PriorityAt(ByRank(ranks), parts, j) == Some(ranks[At(parts, j)])
    ensures forall j :: 0 <= j < PairCount(parts) && PriorityAt(ByRank(ranks), parts, j).Some? ==>
              At(parts, j) in ranks
  {
  }

  /** EndState for a run on a token, as the encoder starts it. */
  lemma BpeEndState(ranks: Ranks, token: Token, bound: Option<int>)
    ensures var end := Run(ByRank(ranks), Bytes(token), bound);
      && Joined(end) == token
      && (forall k :: 0 <= k < |end| ==> Built(ranks, bound, end[k]))
      && (forall j :: 0 <= j < PairCount(end) && At(end, j) in ranks ==> Stops(bound, ranks[At(end, j)]))
  {
    EndState(ranks, Bytes(token), bound);
    JoinedBytes(token);
  }

  // ---------------------------------------------------------------- one step, spelled out

  /** Of the adjacent pairs in the table the leftmost of least rank is merged, if that is below the bound. */
  lemma OneMerge(ranks: Ranks, parts: seq<Token>, bound: Option<int>, i: nat)
    requires i + 1 < |parts| && parts[i] + parts[i + 1] in ranks
    requires forall j :: 0 <= j < |parts| - 1 && At(parts, j) in ranks ==>
      && ranks[parts[i] + parts[i + 1]] <= ranks[At(parts, j)]
      && (j < i ==> ranks[parts[i] + parts[i + 1]] < ranks[At(parts, j)])
    requires bound.None? || ranks[parts[i] + parts[i + 1]] < bound.value
    ensures Run(ByRank(ranks), parts, bound)
         == Run(ByRank(ranks), parts[..i] + [parts[i] + parts[i + 1]] + parts[i + 2..], bound)
  {
    RankedPairs(ranks, parts);
    BestUnique(ByRank(ranks), parts, i);
  }

  /** The run ends when every adjacent pair is missing from the table or not below the bound. */
  lemma NoMerge(ranks: Ranks, parts: seq<Token>, bound: Option<int>)
    requires forall j :: 0 <= j < |parts| - 1 && At(parts, j) in ranks ==>
      bound.Some? && ranks[At(parts, j)] >= bound.value
    ensures Run(ByRank(ranks), parts, bound) == parts
  {
    RankedPairs(ranks, parts);
  }

  /** Of the adjacent pairs in a list the earliest listed is merged, where it occurs first. */
  lemma OneListed(merges: seq<Pair>, parts: seq<Token>, i: nat, m: nat)
    requires i + 1 < |parts| && m < |merges| && merges[m] == (parts[i], parts[i + 1])
    requires forall j :: 0 <= j < |parts| - 1 ==> (parts[j], parts[j + 1]) !in merges[..m]
    requires forall j :: 0 <= j < i ==> (parts[j], parts[j + 1]) != merges[m]
    ensures Run(ByList(merges), parts, None)
         == Run(ByList(merges), parts[..i] + [parts[i] + parts[i + 1]] + parts[i + 2..], None)
  {
    forall j | 0 <= j < |parts| - 1 && (parts[j], parts[j + 1]) in merges
      ensures m <= Index(merges, (parts[j], parts[j + 1])) && (j < i ==> m < Index(merges, (parts[j], parts[j + 1])))
    {
      ListedAfter(merges, (parts[j], parts[j + 1]), m);
    }
    assert Index(merges, (parts[i], parts[i + 1])) == m by {
      IndexIs(merges, m);
    }
    BestUnique(ByList(merges), parts, i);
  }

  lemma ListedAfter(merges: seq<Pair>, pair: Pair, m: nat)
    requires pair in merges && m < |merges| && pair !in merges[..m]
    ensures m <= Index(merges, pair) && (pair != merges[m] ==> m < Index(merges, pair))
  {
    assert forall j :: 0 <= j < m ==> merges[j] in merges[..m];
  }

  lemma IndexIs(merges: seq<Pair>, m: nat)
    requires m < |merges| && merges[m] !in merges[..m]
    ensures Index(merges, merges[m]) == m
  {
    var k := Index(merges, merges[m]);
    assert forall j :: 0 <= j < k ==> merges[j] in merges[..k];
    assert forall j :: 0 <= j < m ==> merges[j] in merges[..m];
  }

  lemma NoneListed(merges: seq<Pair>, parts: seq<Token>)
    requires forall j :: 0 <= j < |parts| - 1 ==> (parts[j], parts[j + 1]) !in merges
    ensures Run(ByList(merges), parts, None) == parts
  {
  }

  // ---------------------------------------------------------------- runs as chains of states

  /** `to` is one of the states the unbounded run passes through from `parts`. */
  ghost predicate Reaches(rule: Rule, parts: seq<Token>, to: seq<Token>)
    decreases |parts|
  {
    parts == to ||
    (Best(rule, parts).Some? && Reaches(rule, Merge(parts, Best(rule, parts).value), to))
  }

  lemma {:induction false} ReachesStep(rule: Rule, parts: seq<Token>, to: seq<Token>)
    requires Reaches(rule, parts, to)
    requires Best(rule, to).Some?
    ensures Reaches(rule, parts, Merge(to, Best(rule, to).value))
    decreases |parts|
  {
    if parts != to {
      ReachesStep(rule, Merge(parts, Best(rule, parts).value), to);
    }
  }

  lemma {:induction false} ReachesShrinks(rule: Rule, parts: seq<Token>, to: seq<Token>)
    requires Reaches(rule, parts, to)
    ensures |to| <= |parts|
    ensures |to| == |parts| ==> to == parts
    decreases |parts|
  {
    if parts != to {
      ReachesShrinks(rule, Merge(parts, Best(rule, parts).value), to);
    }
  }

  /** A run passes through at most one state of each length. */
  lemma {:induction false} ReachesUnique(rule: Rule, parts: seq<Token>, a: seq<Token>, b: seq<Token>)
    requires Reaches(rule, parts, a) && Reaches(rule, parts, b)
    requires |a| == |b|
    ensures a == b
    decreases |parts|
  {
    ReachesShrinks(rule, parts, a);
    ReachesShrinks(rule, parts, b);
    if |a| < |parts| {
      ReachesUnique(rule, Merge(parts, Best(rule, parts).value), a, b);
    }
  }

  /**
   The bound never influences which pair is chosen, only when to stop: a bounded run ends in a
   state of the unbounded run, and any looser bound carries on from exactly there.
   */
  lemma {:induction false} BoundedRunIsPrefix(rule: Rule, parts: seq<Token>, tight: int, loose: Option<int>)
    requires loose.None? || tight <= loose.value
    ensures Reaches(rule, parts, Run(rule, parts, Some(tight)))
    ensures Run(rule, Run(rule, parts, Some(tight)), loose) == Run(rule, parts, loose)
    decreases |parts|
  {
    match Best(rule, parts)
    case None =>
    case Some(i) =>
      if !Stops(Some(tight), PriorityAt(rule, parts, i).value) {
        BoundedRunIsPrefix(rule, Merge(parts, i), tight, loose);
      }
  }

  lemma {:induction false} ReachesSameEnd(rule: Rule, start: seq<Token>, to: seq<Token>)
    requires Reaches(rule, start, to)
    ensures Run(rule, start, None) == Run(rule, to, None)
    decreases |start|
  {
    if start != to {
      ReachesSameEnd(rule, Merge(start, Best(rule, start).value), to);
    }
  }

  lemma {:induction false} ReachesEnd(rule: Rule, parts: seq<Token>)
    ensures Reaches(rule, parts, Run(rule, parts, None))
    ensures Best(rule, Run(rule, parts, None)).None?
    decreases |parts|
  {
    if Best(rule, parts).Some? {
      ReachesEnd(rule, Merge(parts, Best(rule, parts).value));
    }
  }

  /** When the caller's assertion holds, the recovered merge rebuilds the token and nothing else. */
  lemma RecoveredMergeRebuilds(ranks: Ranks, token: Token, loose: Option<int>)
    requires token in ranks
    requires |Run(ByRank(ranks), Bytes(token), Some(ranks[token]))| == 2
    requires loose.None? || ranks[token] < loose.value
    ensures Run(ByRank(ranks), Bytes(token), loose) == [token]
  {
    var rule, rank := ByRank(ranks), ranks[token];
    var two := Run(rule, Bytes(token), Some(rank));
    BoundedRunIsPrefix(rule, Bytes(token), rank, loose);
    BpeEndState(ranks, token, Some(rank));
    assert two == [two[0], two[1]];
    JoinedTwo(two[0], two[1]);
    assert At(two, 0) == token;
    assert Merge(two, 0) == [token];
    assert Best(rule, two) == Some(0);
    assert Best(rule, [token]).None?;
  }

  // ---------------------------------------------------------------- runs are local

  /** The stretch of `parts` from `i` to `j` is a state of the run on that stretch's own bytes. */
  ghost predicate StretchReached(rule: Rule, parts: seq<Token>, i: nat, j: nat)
    requires i <= j <= |parts|
  {
    Reaches(rule, Bytes(Joined(parts[i..j])), parts[i..j])
  }

  ghost predicate Local(rule: Rule, parts: seq<Token>) {
    forall i, j :: 0 <= i <= j <= |parts| ==> StretchReached(rule, parts, i, j)
  }

  lemma LocalStep(rule: Rule, parts: seq<Token>, i: nat, j: nat)
    requires Local(rule, parts) && Best(rule, parts).Some?
    requires i <= j < |parts|
    ensures StretchReached(rule, Merge(parts, Best(rule, parts).value), i, j)
  {
    var m := Best(rule, parts).value;
    var i', j' := if m < i then i + 1 else i, if m < j then j + 1 else j;
    assert StretchReached(rule, parts, i', j');
    if j <= m || m < i {
      Untouched(parts, m, i, j, i', j');
    } else {
      StretchStep(rule, parts, m, i, j, j');
    }
  }

  lemma StretchStep(rule: Rule, parts: seq<Token>, m: nat, i: nat, j: nat, j': nat)
    requires i <= m < j && j' == j + 1 <= |parts|
    requires Best(rule, parts) == Some(m) && StretchReached(rule, parts, i, j')
    ensures StretchReached(rule, Merge(parts, m), i, j)
  {
    var whole, k, after := parts[i..j'], m - i, Merge(parts, m)[i..j];
    StretchMerges(rule, parts, m, i, j, j');
    OneStep(rule, whole, k, after);
  }

  lemma OneStep(rule: Rule, whole: seq<Token>, k: nat, after: seq<Token>)
    requires Reaches(rule, Bytes(Joined(whole)), whole) && Best(rule, whole) == Some(k)
    requires after == Merge(whole, k) && Joined(after) == Joined(whole)
    ensures Reaches(rule, Bytes(Joined(after)), after)
  {
    ReachesStep(rule, Bytes(Joined(whole)), whole);
  }

  /** A stretch beside the merged pair moves at most by one place. */
  lemma Untouched(parts: seq<Token>, m: nat, i: nat, j: nat, i': nat, j': nat)
    requires m + 1 < |parts| && i <= j < |parts| && (j <= m || m < i)
    requires i' == (if m < i then i + 1 else i) && j' == (if m < j then j + 1 else j)
    ensures Merge(parts, m)[i..j] == parts[i'..j']
  {
  }

  /**
   Runs are local: any stretch of a state of a run is itself a state of the run on that
   stretch's own bytes, so merges elsewhere in the text do not influence it.
   */
  lemma {:induction false} RunsAreLocal(rule: Rule, start: seq<Token>, parts: seq<Token>)
    requires Local(rule, start)
    requires Reaches(rule, start, parts)
    ensures Local(rule, parts)
    decreases |start|
  {
    if start != parts {
      var next := Merge(start, Best(rule, start).value);
      forall i, j | 0 <= i <= j <= |next| ensures StretchReached(rule, next, i, j) {
        LocalStep(rule, start, i, j);
      }
      RunsAreLocal(rule, next, parts);
    }
  }

  lemma BytesAreLocal(rule: Rule, text: Token)
    ensures Local(rule, Bytes(text))
  {
    forall i, j | 0 <= i <= j <= |text| ensures StretchReached(rule, Bytes(text), i, j) {
      assert Bytes(text)[i..j] == Bytes(text[i..j]);
      JoinedBytes(text[i..j]);
    }
  }

  /** Merging inside a stretch is one step of the stretch's own run. */
  lemma StretchMerges(rule: Rule, parts: seq<Token>, m: nat, i: nat, j: nat, j': nat)
    requires i <= m < j && j' == j + 1 <= |parts|
    requires Best(rule, parts) == Some(m)
    ensures Best(rule, parts[i..j']) == Some(m - i)
    ensures Merge(parts, m)[i..j] == Merge(parts[i..j'], m - i)
    ensures Joined(Merge(parts, m)[i..j]) == Joined(parts[i..j'])
  {
    BestOfStretch(rule, parts, i, j');
    MergeInStretch(parts, i, j, j', m);
    JoinedMerge(parts[i..j'], m - i);
  }

  lemma MergeInStretch(parts: seq<Token>, i: nat, j: nat, j': nat, m: nat)
    requires i <= m < j && j' == j + 1 <= |parts|
    ensures Merge(parts, m)[i..j] == Merge(parts[i..j'], m - i)
  {
    var stretch := parts[i..j'];
    assert At(stretch, m - i) == At(parts, m);
    assert stretch[..m - i] == parts[i..m] && stretch[m - i + 2..] == parts[m + 2..j'];
    SliceAround(parts[..m], At(parts, m), parts[m + 2..], i, j - m - 1, j);
    assert parts[..m][i..] == parts[i..m] && parts[m + 2..][..j - m - 1] == parts[m + 2..j'];
  }

  lemma SliceAround(a: seq<Token>, x: Token, c: seq<Token>, i: nat, n: nat, j: nat)
    requires i <= |a| && n <= |c| && j == |a| + 1 + n
    ensures (a + [x] + c)[i..j] == a[i..] + [x] + c[..n]
  {
  }

  lemma BestUnique(rule: Rule, parts: seq<Token>, i: nat)
    requires IsBest(rule, parts, PairCount(parts), i)
    ensures Best(rule, parts) == Some(i)
  {
    var b := Best(rule, parts);
    assert b.Some?;
    assert !(b.value < i) && !(i < b.value);
  }

  lemma SamePriorities(rule: Rule, parts: seq<Token>, i: nat, j: nat, stretch: seq<Token>)
    requires i <= j <= |parts| && stretch == parts[i..j]
    ensures forall k :: 0 <= k < PairCount(stretch) ==> PriorityAt(rule, stretch, k) == PriorityAt(rule, parts, i + k)
  {
  }

  /** The pair chosen in a state is also the one chosen in any stretch that contains it. */
  lemma BestOfStretch(rule: Rule, parts: seq<Token>, i: nat, j: nat)
    requires i <= j <= |parts|
    requires Best(rule, parts).Some?
    requires i <= Best(rule, parts).value && Best(rule, parts).value + 1 < j
    ensures Best(rule, parts[i..j]) == Some(Best(rule, parts).value - i)
  {
    var stretch, m := parts[i..j], Best(rule, parts).value;
    SamePriorities(rule, parts, i, j, stretch);
    assert IsBest(rule, stretch, PairCount(stretch), m - i);
    BestUnique(rule, stretch, m - i);
  }

  lemma ReachedPartsNonEmpty(rule: Rule, start: seq<Token>, parts: seq<Token>)
    requires Reaches(rule, start, parts)
    requires forall k :: 0 <= k < |start| ==> start[k] != []
    ensures forall k :: 0 <= k < |parts| ==> parts[k] != []
    decreases |start|
  {
    if start != parts {
      ReachedPartsNonEmpty(rule, Merge(start, Best(rule, start).value), parts);
    }
  }
}
