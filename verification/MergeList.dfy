/**
 Recovering a merge list from a rank table.

 The converter runs the encoder on every multi-byte token, bounded by the token's own rank, and
 writes down the two parts it is left with.  The list means the same as the table it came from:
 on every text, merging by the list makes the very same steps.
 */
module MergeList {
  import opened Wrappers
  import opened BytePairEncoding

  // ---------------------------------------------------------------- the recovered merge list

  datatype Error = AssertionError

  /** The two parts recovered for a token, when the caller's assertion holds. */
  function Recovered(ranks: Ranks, token: Token): Option<Pair>
    requires token in ranks
  {
    var merged := Run(ByRank(ranks), Bytes(token), Some(ranks[token]));
    if |merged| == 2 then Some((merged[0], merged[1])) else None
  }

  /** The table as the dictionary iterates it: every token once, by increasing rank. */
  ghost predicate Lists(items: seq<Token>, ranks: Ranks) {
    Increasing(ranks, items) && forall token :: token in ranks ==> token in items
  }

  /** The merges of the listed tokens, in order; single bytes have none. */
  function MergesOf(ranks: Ranks, items: seq<Token>): Result<seq<Pair>, Error>
    requires forall k :: 0 <= k < |items| ==> items[k] in ranks
  {
    if items == [] then Success([])
    else
      var token := items[|items| - 1];
      match MergesOf(ranks, items[..|items| - 1])
      case Failure(e) => Failure(e)
      case Success(merges) =>
        if |token| == 1 then Success(merges)
        else match Recovered(ranks, token)
          case None => Failure(AssertionError)
          case Some(pair) => Success(merges + [pair])
  }

  method RecoverMerges(ranks: Ranks, items: seq<Token>) returns (r: Result<seq<Pair>, Error>)
    requires forall k :: 0 <= k < |items| ==> items[k] in ranks
    ensures r == MergesOf(ranks, items)
  {
    var merges: seq<Pair> := [];
    for k := 0 to |items|
      invariant MergesOf(ranks, items[..k]) == Success(merges)
    {
      var token := items[k];
      assert items[..k + 1][..k] == items[..k];
      if |token| != 1 {
        var merged := Bpe(ranks, token, Some(ranks[token]));
        if |merged| != 2 {
          FailureSticks(ranks, items, k + 1);
          return Failure(AssertionError);
        }
        merges := merges + [(merged[0], merged[1])];
      }
    }
    assert items[..|items|] == items;
    return Success(merges);
  }

  lemma {:induction false} FailureSticks(ranks: Ranks, items: seq<Token>, k: nat)
    requires forall i :: 0 <= i < |items| ==> items[i] in ranks
    requires k <= |items| && MergesOf(ranks, items[..k]).Failure?
    ensures MergesOf(ranks, items) == Failure(AssertionError)
    decreases |items|
  {
    if k < |items| {
      assert items[..|items| - 1][..k] == items[..k];
      FailureSticks(ranks, items[..|items| - 1], k);
    } else {
      assert items[..k] == items;
      if MergesOf(ranks, items[..|items| - 1]).Failure? {
        assert items[..|items| - 1][..|items| - 1] == items[..|items| - 1];
        FailureSticks(ranks, items[..|items| - 1], |items| - 1);
      }
    }
  }

  /** The recovery fails exactly when some listed token of other than one byte is not left in two parts. */
  lemma {:induction false} RecoveryFailsIff(ranks: Ranks, items: seq<Token>)
    requires forall k :: 0 <= k < |items| ==> items[k] in ranks
    ensures MergesOf(ranks, items).Failure? <==>
            exists k :: 0 <= k < |items| && |items[k]| != 1 &&
              |Run(ByRank(ranks), Bytes(items[k]), Some(ranks[items[k]]))| != 2
  {
    if items != [] {
      var init, last := items[..|items| - 1], items[|items| - 1];
      RecoveryFailsIff(ranks, init);
      assert items == init + [last];
      if k :| 0 <= k < |items| && |items[k]| != 1 && |Run(ByRank(ranks), Bytes(items[k]), Some(ranks[items[k]]))| != 2 {
        assert k < |init| ==> init[k] == items[k];
      }
      if k :| 0 <= k < |init| && |init[k]| != 1 && |Run(ByRank(ranks), Bytes(init[k]), Some(ranks[init[k]]))| != 2 {
        assert items[k] == init[k];
      }
    }
  }

  /** The listed tokens of other than one byte, in order. */
  ghost function MultiByte(items: seq<Token>): seq<Token> {
    if items == [] then []
    else
      var last := items[|items| - 1];
      MultiByte(items[..|items| - 1]) + (if |last| == 1 then [] else [last])
  }

  /** What a successful recovery writes: for each such token, in order, the two parts the bounded run leaves. */
  lemma {:induction false} MergesInOrder(ranks: Ranks, items: seq<Token>)
    requires forall k :: 0 <= k < |items| ==> items[k] in ranks
    requires MergesOf(ranks, items).Success?
    ensures var merges, tokens := MergesOf(ranks, items).value, MultiByte(items);
      && |merges| == |tokens|
      && forall m :: 0 <= m < |merges| ==>
           && tokens[m] in ranks
           && Run(ByRank(ranks), Bytes(tokens[m]), Some(ranks[tokens[m]])) == [merges[m].0, merges[m].1]
  {
    if items != [] {
      MergesInOrder(ranks, items[..|items| - 1]);
    }
  }

  // ---------------------------------------------------------------- the list and the table

  /** The rank of the token a pair makes. */
  function Ranked(ranks: Ranks, pair: Pair): int {
    if pair.0 + pair.1 in ranks then ranks[pair.0 + pair.1] else 0
  }

  /** The pair is what was recovered for a listed token. */
  ghost predicate Written(ranks: Ranks, items: seq<Token>, pair: Pair) {
    var token := pair.0 + pair.1;
    token in ranks && token in items && Recovered(ranks, token) == Some(pair)
  }

  ghost predicate EachWritten(ranks: Ranks, items: seq<Token>, merges: seq<Pair>) {
    forall m :: 0 <= m < |merges| ==> Written(ranks, items, merges[m])
  }

  ghost predicate InRankOrder(ranks: Ranks, merges: seq<Pair>) {
    forall m, n :: 0 <= m < n < |merges| ==> Ranked(ranks, merges[m]) < Ranked(ranks, merges[n])
  }

  ghost predicate HasMerge(ranks: Ranks, merges: seq<Pair>, token: Token) {
    token in ranks && Recovered(ranks, token).Some? && Recovered(ranks, token).value in merges
  }

  ghost predicate EachMultiByte(ranks: Ranks, items: seq<Token>, merges: seq<Pair>) {
    forall k :: 0 <= k < |items| && |items[k]| != 1 ==> HasMerge(ranks, merges, items[k])
  }

  /** The merges a recovery should write for the listed tokens. */
  ghost predicate Orderly(ranks: Ranks, items: seq<Token>, merges: seq<Pair>) {
    EachWritten(ranks, items, merges) && InRankOrder(ranks, merges) && EachMultiByte(ranks, items, merges)
  }

  ghost predicate Increasing(ranks: Ranks, items: seq<Token>) {
    && (forall k :: 0 <= k < |items| ==> items[k] in ranks)
    && (forall k, l :: 0 <= k < l < |items| ==> ranks[items[k]] < ranks[items[l]])
  }

  /** What a successful recovery writes: for each listed multi-byte token its pair, ordered by rank. */
  lemma {:induction false} MergesOrdered(ranks: Ranks, items: seq<Token>)
    requires Increasing(ranks, items)
    requires MergesOf(ranks, items).Success?
    ensures Orderly(ranks, items, MergesOf(ranks, items).value)
  {
    if items != [] {
      var init, token := items[..|items| - 1], items[|items| - 1];
      MergesOrdered(ranks, init);
      var merges := MergesOf(ranks, init).value;
      if |token| == 1 {
        OrderlySame(ranks, init, token, items, merges);
      } else {
        OrderlySnoc(ranks, init, token, items, merges, Recovered(ranks, token).value);
      }
    }
  }

  lemma OrderlySame(ranks: Ranks, init: seq<Token>, token: Token, items: seq<Token>, merges: seq<Pair>)
    requires items == init + [token] && Orderly(ranks, init, merges) && |token| == 1
    ensures Orderly(ranks, items, merges)
  {
    WrittenSnoc(ranks, init, token, items, merges);
    CoveredSnoc(ranks, init, token, items, merges, merges);
  }

  lemma OrderlySnoc(ranks: Ranks, init: seq<Token>, token: Token, items: seq<Token>, merges: seq<Pair>, pair: Pair)
    requires items == init + [token] && Orderly(ranks, init, merges) && Increasing(ranks, items)
    requires token in ranks && Recovered(ranks, token) == Some(pair)
    ensures Orderly(ranks, items, merges + [pair])
  {
    RecoveredJoins(ranks, token);
    assert Written(ranks, items, pair);
    WrittenSnoc(ranks, init, token, items, merges);
    CoveredSnoc(ranks, init, token, items, merges, merges + [pair]);
    LowerRanks(ranks, init, token, items, merges);
  }

  lemma WrittenSnoc(ranks: Ranks, init: seq<Token>, token: Token, items: seq<Token>, merges: seq<Pair>)
    requires items == init + [token] && EachWritten(ranks, init, merges)
    ensures EachWritten(ranks, items, merges)
  {
    forall m | 0 <= m < |merges| ensures Written(ranks, items, merges[m]) {
      assert Written(ranks, init, merges[m]);
    }
  }

  lemma CoveredSnoc(ranks: Ranks, init: seq<Token>, token: Token, items: seq<Token>,
                    merges: seq<Pair>, longer: seq<Pair>)
    requires items == init + [token] && EachMultiByte(ranks, init, merges) && merges <= longer
    requires |token| != 1 ==> HasMerge(ranks, longer, token)
    ensures EachMultiByte(ranks, items, longer)
  {
    forall k | 0 <= k < |items| && |items[k]| != 1 ensures HasMerge(ranks, longer, items[k]) {
      if k < |init| {
        assert items[k] == init[k];
        assert HasMerge(ranks, merges, init[k]);
      }
    }
  }

  lemma LowerRanks(ranks: Ranks, init: seq<Token>, token: Token, items: seq<Token>, merges: seq<Pair>)
    requires items == init + [token] && EachWritten(ranks, init, merges)
    requires Increasing(ranks, items) && token in ranks
    ensures forall m :: 0 <= m < |merges| ==> Ranked(ranks, merges[m]) < ranks[token]
  {
    forall m | 0 <= m < |merges| ensures Ranked(ranks, merges[m]) < ranks[token] {
      assert Written(ranks, init, merges[m]);
      var k :| 0 <= k < |init| && init[k] == merges[m].0 + merges[m].1;
      assert items[k] == init[k] && items[|init|] == token;
    }
  }

  lemma RecoveredJoins(ranks: Ranks, token: Token)
    requires token in ranks && Recovered(ranks, token).Some?
    ensures var pair := Recovered(ranks, token).value; pair.0 + pair.1 == token
  {
    var two := Run(ByRank(ranks), Bytes(token), Some(ranks[token]));
    BpeEndState(ranks, token, Some(ranks[token]));
    assert two == [two[0], two[1]];
    JoinedTwo(two[0], two[1]);
  }

  /** Every pair a run ever merges is the very pair recovered for the token it makes. */
  lemma MergedPairIsRecovered(ranks: Ranks, text: Token, parts: seq<Token>, i: nat)
    requires Reaches(ByRank(ranks), Bytes(text), parts)
    requires i + 1 < |parts| && At(parts, i) in ranks
    requires Recovered(ranks, At(parts, i)).Some?
    ensures Recovered(ranks, At(parts, i)).value == (parts[i], parts[i + 1])
  {
    var token := At(parts, i);
    var pair := parts[i..i + 2];
    BytesAreLocal(ByRank(ranks), text);
    RunsAreLocal(ByRank(ranks), Bytes(text), parts);
    assert StretchReached(ByRank(ranks), parts, i, i + 2);
    assert pair == [parts[i], parts[i + 1]];
    JoinedTwo(parts[i], parts[i + 1]);
    BoundedRunIsPrefix(ByRank(ranks), Bytes(token), ranks[token], None);
    ReachesUnique(ByRank(ranks), Bytes(token), pair, Run(ByRank(ranks), Bytes(token), Some(ranks[token])));
  }

  /** The list holds exactly the ranked adjacent pairs of `parts`, in the order of their ranks. */
  ghost predicate Mirrors(ranks: Ranks, merges: seq<Pair>, parts: seq<Token>) {
    && (forall j :: 0 <= j < PairCount(parts) ==> ((parts[j], parts[j + 1]) in merges <==> At(parts, j) in ranks))
    && InRankOrder(ranks, merges)
  }

  lemma ReachedMirrors(ranks: Ranks, items: seq<Token>, text: Token, parts: seq<Token>)
    requires Lists(items, ranks) && MergesOf(ranks, items).Success?
    requires Reaches(ByRank(ranks), Bytes(text), parts)
    ensures Mirrors(ranks, MergesOf(ranks, items).value, parts)
  {
    var merges := MergesOf(ranks, items).value;
    MergesOrdered(ranks, items);
    ReachedPartsNonEmpty(ByRank(ranks), Bytes(text), parts);
    forall j | 0 <= j < PairCount(parts)
      ensures (parts[j], parts[j + 1]) in merges <==> At(parts, j) in ranks
    {
      if At(parts, j) in ranks {
        var k :| 0 <= k < |items| && items[k] == At(parts, j);
        assert |items[k]| != 1 && HasMerge(ranks, merges, items[k]);
        MergedPairIsRecovered(ranks, text, parts, j);
      }
      if (parts[j], parts[j + 1]) in merges {
        var m :| 0 <= m < |merges| && merges[m] == (parts[j], parts[j + 1]);
        assert Written(ranks, items, merges[m]);
      }
    }
  }

  /** Of two listed pairs the earlier has the lower rank. */
  lemma IndexByRank(ranks: Ranks, merges: seq<Pair>, parts: seq<Token>, j: nat, k: nat)
    requires Mirrors(ranks, merges, parts)
    requires j < PairCount(parts) && k < PairCount(parts)
    requires At(parts, j) in ranks && At(parts, k) in ranks
    ensures var a, b := Index(merges, (parts[j], parts[j + 1])), Index(merges, (parts[k], parts[k + 1]));
      && (a < b <==> ranks[At(parts, j)] < ranks[At(parts, k)])
      && (a == b <==> ranks[At(parts, j)] == ranks[At(parts, k)])
  {
    var a, b := Index(merges, (parts[j], parts[j + 1])), Index(merges, (parts[k], parts[k + 1]));
    assert Ranked(ranks, merges[a]) == ranks[At(parts, j)];
    assert Ranked(ranks, merges[b]) == ranks[At(parts, k)];
  }

  /** Rules that put the same pairs in the same order choose the same pair. */
  lemma SameOrder(one: Rule, other: Rule, parts: seq<Token>)
    requires forall i :: 0 <= i < PairCount(parts) ==>
      (PriorityAt(one, parts, i).Some? <==> PriorityAt(other, parts, i).Some?)
    requires forall i, j :: 0 <= i < PairCount(parts) && 0 <= j < PairCount(parts) ==>
      PriorityAt(one, parts, i).Some? && PriorityAt(one, parts, j).Some? ==>
      (PriorityAt(one, parts, i).value < PriorityAt(one, parts, j).value <==>
       PriorityAt(other, parts, i).value < PriorityAt(other, parts, j).value)
    ensures Best(one, parts) == Best(other, parts)
  {
    if Best(one, parts).Some? {
      BestUnique(other, parts, Best(one, parts).value);
    }
  }

  /** In every state of a run, table and list choose the same pair. */
  lemma SameChoice(ranks: Ranks, merges: seq<Pair>, parts: seq<Token>)
    requires Mirrors(ranks, merges, parts)
    ensures Best(ByList(merges), parts) == Best(ByRank(ranks), parts)
  {
    RankedPairs(ranks, parts);
    forall i, j | 0 <= i < PairCount(parts) && 0 <= j < PairCount(parts) &&
                  PriorityAt(ByRank(ranks), parts, i).Some? && PriorityAt(ByRank(ranks), parts, j).Some?
      ensures PriorityAt(ByRank(ranks), parts, i).value < PriorityAt(ByRank(ranks), parts, j).value <==>
              PriorityAt(ByList(merges), parts, i).value < PriorityAt(ByList(merges), parts, j).value
    {
      IndexByRank(ranks, merges, parts, i, j);
    }
    SameOrder(ByRank(ranks), ByList(merges), parts);
  }

  /**
   The recovered merge list preserves meaning: on every text, merging by the list ends exactly
   where the rank table does.
   */
  lemma MergeListPreservesMeaning(ranks: Ranks, items: seq<Token>, text: Token)
    requires Lists(items, ranks) && MergesOf(ranks, items).Success?
    ensures Encode(ByList(MergesOf(ranks, items).value), text) == Encode(ByRank(ranks), text)
  {
    SameRun(ranks, items, text, Bytes(text));
  }

  lemma {:induction false} SameRun(ranks: Ranks, items: seq<Token>, text: Token, parts: seq<Token>)
    requires Lists(items, ranks) && MergesOf(ranks, items).Success?
    requires Reaches(ByRank(ranks), Bytes(text), parts)
    ensures Run(ByList(MergesOf(ranks, items).value), parts, None) == Run(ByRank(ranks), parts, None)
    decreases |parts|
  {
    var merges := MergesOf(ranks, items).value;
    ReachedMirrors(ranks, items, text, parts);
    SameChoice(ranks, merges, parts);
    match Best(ByRank(ranks), parts)
    case None =>
    case Some(i) =>
      ReachesStep(ByRank(ranks), Bytes(text), parts);
      SameRun(ranks, items, text, Merge(parts, i));
  }

  // ---------------------------------------------------------------- why the order matters

  lemma {:induction false} AllWritten(ranks: Ranks, items: seq<Token>)
    requires forall k :: 0 <= k < |items| ==> items[k] in ranks
    requires MergesOf(ranks, items).Success?
    ensures EachWritten(ranks, items, MergesOf(ranks, items).value)
  {
    if items != [] {
      var init, token := items[..|items| - 1], items[|items| - 1];
      AllWritten(ranks, init);
      WrittenSnoc(ranks, init, token, items, MergesOf(ranks, init).value);
      if |token| != 1 {
        RecoveredJoins(ranks, token);
      }
    }
  }

  /** Two parts are merged if the rule has the pair. */
  lemma RunTwo(rule: Rule, two: seq<Token>)
    requires |two| == 2
    ensures Run(rule, two, None) == if PriorityAt(rule, two, 0).Some? then [At(two, 0)] else two
  {
    var one: seq<Token> := [At(two, 0)];
    assert Merge(two, 0) == one && Best(rule, one).None?;
    if PriorityAt(rule, two, 0).Some? {
      BestUnique(rule, two, 0);
    }
  }

  /** Three parts, of which either two can be merged by the table and by the list. */
  ghost predicate Meet(ranks: Ranks, merges: seq<Pair>, met: seq<Token>) {
    && |met| == 3 && met[0] != [] && met[1] != [] && met[2] != []
    && At(met, 0) in ranks && At(met, 1) in ranks
    && (met[0], met[1]) in merges && (met[1], met[2]) in merges
  }

  /**
   Wherever two merges meet, the list has to have them in the order of their ranks: otherwise the
   text in which they meet is split differently by the list and by the table.
   */
  lemma OverlapOutOfOrder(ranks: Ranks, items: seq<Token>, merges: seq<Pair>, text: Token, met: seq<Token>,
                          table: nat, list: nat)
    requires forall k :: 0 <= k < |items| ==> items[k] in ranks
    requires MergesOf(ranks, items) == Success(merges)
    requires Meet(ranks, merges, met)
    requires Reaches(ByRank(ranks), Bytes(text), met) && Reaches(ByList(merges), Bytes(text), met)
    requires table + list == 1
    requires if table == 0 then ranks[At(met, 0)] <= ranks[At(met, 1)] else ranks[At(met, 1)] < ranks[At(met, 0)]
    requires if table == 0 then Index(merges, (met[1], met[2])) < Index(merges, (met[0], met[1]))
             else Index(merges, (met[0], met[1])) < Index(merges, (met[1], met[2]))
    ensures Encode(ByList(merges), text) != Encode(ByRank(ranks), text)
  {
    BestOfTwo(ByRank(ranks), met, table);
    BestOfTwo(ByList(merges), met, list);
    AllWritten(ranks, items);
    SplitApart(ranks, items, merges, text, met, table, list);
    ReachesSameEnd(ByRank(ranks), Bytes(text), met);
    ReachesSameEnd(ByList(merges), Bytes(text), met);
  }

  lemma BestOfTwo(rule: Rule, met: seq<Token>, first: nat)
    requires |met| == 3 && first < 2 && PriorityAt(rule, met, 0).Some? && PriorityAt(rule, met, 1).Some?
    requires if first == 0 then PriorityAt(rule, met, 0).value <= PriorityAt(rule, met, 1).value
             else PriorityAt(rule, met, 1).value < PriorityAt(rule, met, 0).value
    ensures Best(rule, met) == Some(first)
  {
    assert IsBest(rule, met, 2, first);
    BestUnique(rule, met, first);
  }

  /** After merging different pairs of three parts, list and table never come together again. */
  lemma SplitApart(ranks: Ranks, items: seq<Token>, merges: seq<Pair>, text: Token, met: seq<Token>,
                   table: nat, list: nat)
    requires EachWritten(ranks, items, merges) && Reaches(ByRank(ranks), Bytes(text), met)
    requires |met| == 3 && met[0] != [] && met[1] != [] && met[2] != []
    requires table + list == 1 && Best(ByRank(ranks), met) == Some(table) && Best(ByList(merges), met) == Some(list)
    ensures Run(ByList(merges), met, None) != Run(ByRank(ranks), met, None)
  {
    var byTable, byList := Merge(met, table), Merge(met, list);
    ReachesStep(ByRank(ranks), Bytes(text), met);
    TwoWays(met, table, list);
    OtherNotListed(ranks, items, merges, text, byTable, byList);
    RunTwo(ByRank(ranks), byTable);
    RunTwo(ByList(merges), byList);
  }

  /** A token's parts in one run are its recovered pair, so no other split of it is listed. */
  lemma OtherNotListed(ranks: Ranks, items: seq<Token>, merges: seq<Pair>, text: Token,
                       two: seq<Token>, other: seq<Token>)
    requires EachWritten(ranks, items, merges) && Reaches(ByRank(ranks), Bytes(text), two)
    requires |two| == |other| == 2 && At(two, 0) == At(other, 0) && two[0] != other[0]
    ensures (other[0], other[1]) !in merges
  {
    if (other[0], other[1]) in merges {
      var m :| 0 <= m < |merges| && merges[m] == (other[0], other[1]);
      assert Written(ranks, items, merges[m]);
      MergedPairIsRecovered(ranks, text, two, 0);
    }
  }

  lemma TwoWays(met: seq<Token>, table: nat, list: nat)
    requires |met| == 3 && met[0] != [] && met[1] != [] && met[2] != [] && table + list == 1
    ensures |Merge(met, table)| == |Merge(met, list)| == 2
    ensures At(Merge(met, table), 0) == At(Merge(met, list), 0)
    ensures Merge(met, table)[0] != Merge(met, list)[0]
  {
    var a, b, c := met[0], met[1], met[2];
    assert Merge(met, 0) == [a + b, c] && Merge(met, 1) == [a, b + c];
    assert a + b + c == a + (b + c) && |a + b| != |a|;
  }

  /** For instance, bc is listed before ab, which has the lower rank, and abc is split differently. */
  lemma OutOfOrderDiffers(ranks: Ranks, items: seq<Token>, a: Byte, b: Byte, c: Byte)
    requires a != b && ranks == map[[a, b] := 0, [b, c] := 1] && items == [[b, c], [a, b]]
    ensures forall token :: token in ranks <==> token in items
    ensures MergesOf(ranks, items) == Success([([b], [c]), ([a], [b])])
    ensures Encode(ByRank(ranks), [a, b, c]) == [[a, b], [c]]
    ensures Encode(ByList([([b], [c]), ([a], [b])]), [a, b, c]) == [[a], [b, c]]
  {
    var start := Bytes([a, b, c]);
    assert start == [[a], [b], [c]];
    RecoveredTwo(ranks, a, b);
    RecoveredTwo(ranks, b, c);
    TwoMerges(ranks, items, [b, c], [a, b]);
    TableSplits(ranks, start, a, b, c);
    ListSplits([([b], [c]), ([a], [b])], start, a, b, c);
  }

  lemma TwoMerges(ranks: Ranks, items: seq<Token>, first: Token, second: Token)
    requires items == [first, second] && |first| > 1 && |second| > 1 && first in ranks && second in ranks
    requires Recovered(ranks, first).Some? && Recovered(ranks, second).Some?
    ensures MergesOf(ranks, items) == Success([Recovered(ranks, first).value, Recovered(ranks, second).value])
  {
    var none, one: seq<Token> := [], [first];
    assert one[..0] == none && items[..1] == one;
    assert MergesOf(ranks, none) == Success([]);
    assert one[0] == first && items[1] == second;
    var pair, pair' := Recovered(ranks, first).value, Recovered(ranks, second).value;
    assert [] + [pair] == [pair] && [pair] + [pair'] == [pair, pair'];
    assert MergesOf(ranks, one) == Success([pair]);
  }

  lemma RecoveredTwo(ranks: Ranks, a: Byte, b: Byte)
    requires [a, b] in ranks
    ensures Recovered(ranks, [a, b]) == Some(([a], [b]))
  {
    var parts := Bytes([a, b]);
    assert parts == [[a], [b]] && At(parts, 0) == [a, b];
    BestUnique(ByRank(ranks), parts, 0);
  }

  lemma TableSplits(ranks: Ranks, start: seq<Token>, a: Byte, b: Byte, c: Byte)
    requires a != b && ranks == map[[a, b] := 0, [b, c] := 1] && start == [[a], [b], [c]]
    ensures Run(ByRank(ranks), start, None) == [[a, b], [c]]
  {
    assert At(start, 0) == [a, b] && At(start, 1) == [b, c];
    assert [a, b][0] == a && [b, c][0] == b;
    BestUnique(ByRank(ranks), start, 0);
    var next: seq<Token> := [[a, b], [c]];
    assert Merge(start, 0) == next;
    assert |At(next, 0)| == 3;
    assert Best(ByRank(ranks), next).None?;
  }

  lemma ListSplits(merges: seq<Pair>, start: seq<Token>, a: Byte, b: Byte, c: Byte)
    requires a != b && merges == [([b], [c]), ([a], [b])] && start == [[a], [b], [c]]
    ensures Run(ByList(merges), start, None) == [[a], [b, c]]
  {
    FirstIsSecond(merges, start, a, b, c);
    MergeSecond(start, a, b, c);
    var next: seq<Token> := [[a], [b, c]];
    assert |next[1]| == 2 && Best(ByList(merges), next).None?;
  }

  lemma FirstIsSecond(merges: seq<Pair>, start: seq<Token>, a: Byte, b: Byte, c: Byte)
    requires a != b && merges == [([b], [c]), ([a], [b])] && start == [[a], [b], [c]]
    ensures Best(ByList(merges), start) == Some(1)
  {
    assert [a][0] == a && [b][0] == b;
    assert merges[0] == ([b], [c]) && merges[1] == ([a], [b]);
    assert Index(merges, ([b], [c])) == 0 && Index(merges, ([a], [b])) == 1;
    BestUnique(ByList(merges), start, 1);
  }

  lemma MergeSecond(start: seq<Token>, a: Byte, b: Byte, c: Byte)
    requires start == [[a], [b], [c]]
    ensures Merge(start, 1) == [[a], [b, c]]
  {
    assert At(start, 1) == [b, c] && start[..1] == [[a]] && start[3..] == [];
  }
}
