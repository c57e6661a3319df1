/**
 Edit distance by the table of prefixes.

 The specification is not the recurrence: it is the length of the shortest script of insertions,
 deletions and replacements, at any positions, that turns one word into the other.
 */
module EditDistance {
  datatype Edit = Insert(at: nat, c: char) | Delete(at: nat) | Replace(at: nat, c: char)

  predicate Applies(word: string, edit: Edit) {
    match edit
    case Insert(at, _) => at <= |word|
    case Delete(at) => at < |word|
    case Replace(at, _) => at < |word|
  }

  function Apply(word: string, edit: Edit): string
    requires Applies(word, edit)
  {
    match edit
    case Insert(at, c) => word[..at] + [c] + word[at..]
    case Delete(at) => word[..at] + word[at + 1..]
    case Replace(at, c) => word[..at] + [c] + word[at + 1..]
  }

  /** The script runs, edit by edit, from one word to the other. */
  predicate Turns(word: string, script: seq<Edit>, into: string)
    decreases |script|
  {
    if script == [] then word == into
    else Applies(word, script[0]) && Turns(Apply(word, script[0]), script[1..], into)
  }

  // ---------------------------------------------------------------- the table's recurrence

  function Init(word: string): string
    requires word != []
  {
    word[..|word| - 1]
  }

  function Final(word: string): char
    requires word != []
  {
    word[|word| - 1]
  }

  function Min(a: nat, b: nat): nat {
    if a <= b then a else b
  }

  function Distance(a: string, b: string): nat
    decreases |a| + |b|
  {
    if a == [] then |b|
    else if b == [] then |a|
    else if Final(a) == Final(b) then Distance(Init(a), Init(b))
    else 1 + Min(Min(Distance(Init(a), b), Distance(a, Init(b))), Distance(Init(a), Init(b)))
  }

  /** The table's entry for the prefixes of lengths `i` and `j`. */
  ghost function Entry(a: string, b: string, i: nat, j: nat): nat
    requires i <= |a| && j <= |b|
  {
    Distance(a[..i], b[..j])
  }

  lemma EntryStep(a: string, b: string, i: nat, j: nat)
    requires 0 < i <= |a| && 0 < j <= |b|
    ensures Entry(a, b, i, j) ==
      if a[i - 1] == b[j - 1] then Entry(a, b, i - 1, j - 1)
      else 1 + Min(Min(Entry(a, b, i - 1, j), Entry(a, b, i, j - 1)), Entry(a, b, i - 1, j - 1))
  {
    assert Init(a[..i]) == a[..i - 1] && Init(b[..j]) == b[..j - 1];
  }

  method EditDistance(word1: string, word2: string) returns (distance: nat)
    ensures exists script :: Turns(word1, script, word2) && |script| == distance
    ensures forall script :: Turns(word1, script, word2) ==> distance <= |script|
  {
    var m, n := |word1|, |word2|;
    var dp := new nat[m + 1, n + 1];
    for i := 0 to m + 1
      invariant forall k :: 0 <= k < i ==> dp[k, 0] == k
    {
      dp[i, 0] := i;
    }
    for j := 0 to n + 1
      invariant forall k :: 0 <= k <= m ==> dp[k, 0] == k
      invariant forall l :: 0 <= l < j ==> dp[0, l] == l
    {
      dp[0, j] := j;
    }
    for i := 1 to m + 1
      invariant forall k, l :: 0 <= k < i && 0 <= l <= n ==> dp[k, l] == Entry(word1, word2, k, l)
      invariant forall k :: i <= k <= m ==> dp[k, 0] == k
    {
      for j := 1 to n + 1
        invariant forall k, l :: 0 <= k < i && 0 <= l <= n ==> dp[k, l] == Entry(word1, word2, k, l)
        invariant forall l :: 0 <= l < j ==> dp[i, l] == Entry(word1, word2, i, l)
        invariant forall k :: i < k <= m ==> dp[k, 0] == k
      {
        EntryStep(word1, word2, i, j);
        if word1[i - 1] == word2[j - 1] {
          dp[i, j] := dp[i - 1, j - 1];
        } else {
          dp[i, j] := 1 + Min(Min(dp[i - 1, j], dp[i, j - 1]), dp[i - 1, j - 1]);
        }
      }
    }
    assert word1[..m] == word1 && word2[..n] == word2;
    DistanceIsLeast(word1, word2);
    return dp[m, n];
  }

  /** The table's entry is the length of the shortest script. */
  lemma DistanceIsLeast(a: string, b: string)
    ensures exists script :: Turns(a, script, b) && |script| == Distance(a, b)
    ensures forall script :: Turns(a, script, b) ==> Distance(a, b) <= |script|
  {
    var script := Shortest(a, b);
    forall script | Turns(a, script, b) ensures Distance(a, b) <= |script| {
      NoShorter(a, script, b);
    }
  }

  // ---------------------------------------------------------------- no script is shorter

  /** One edit changes the distance to any word by at most one, so a script needs that many. */
  lemma {:induction false} NoShorter(a: string, script: seq<Edit>, b: string)
    requires Turns(a, script, b)
    ensures Distance(a, b) <= |script|
    decreases |script|
  {
    if script == [] {
      DistanceToSelf(a);
    } else {
      NoShorter(Apply(a, script[0]), script[1..], b);
      OneEdit(a, script[0], b);
    }
  }

  lemma {:induction false} DistanceToSelf(a: string)
    ensures Distance(a, a) == 0
  {
    if a != [] {
      DistanceToSelf(Init(a));
    }
  }

  lemma OneEdit(a: string, edit: Edit, b: string)
    requires Applies(a, edit)
    ensures Distance(a, b) <= 1 + Distance(Apply(a, edit), b)
  {
    match edit
    case Insert(at, c) =>
      assert a == a[..at] + a[at..];
      CommonTail(a[..at], a[..at] + [c], a[at..], b);
    case Delete(at) =>
      assert a == a[..at] + [a[at]] + a[at + 1..];
      CommonTail(a[..at] + [a[at]], a[..at], a[at + 1..], b);
    case Replace(at, c) =>
      assert a == a[..at] + [a[at]] + a[at + 1..];
      CommonTail(a[..at] + [a[at]], a[..at] + [c], a[at + 1..], b);
  }

  /** The two words differ by one edit in their last character. */
  ghost predicate Neighbours(p: string, q: string) {
    || (q != [] && p == Init(q))
    || (p != [] && q == Init(p))
    || (p != [] && q != [] && Init(p) == Init(q))
  }

  /** An edit before a common tail costs no more than the edit itself. */
  lemma {:induction false} CommonTail(p: string, q: string, tail: string, b: string)
    requires Neighbours(p, q)
    ensures Distance(p + tail, b) <= 1 + Distance(q + tail, b)
    decreases |tail| + |b|
  {
    if tail == [] {
      assert p + tail == p && q + tail == q;
      LastEdit(p, q, b);
    } else if b != [] {
      CommonTail(p, q, Init(tail), b);
      CommonTail(p, q, tail, Init(b));
      CommonTail(p, q, Init(tail), Init(b));
      Recurrence(p + tail, b);
      Recurrence(q + tail, b);
      InitTail(p, tail);
      InitTail(q, tail);
    }
  }

  lemma InitTail(p: string, tail: string)
    requires tail != []
    ensures Init(p + tail) == p + Init(tail) && Final(p + tail) == Final(tail)
  {
  }

  lemma LastEdit(p: string, q: string, b: string)
    requires Neighbours(p, q)
    ensures Distance(p, b) <= 1 + Distance(q, b)
  {
    if q != [] && p == Init(q) {
      LastCharacter(q, b);
    } else if p != [] && q == Init(p) {
      LastCharacter(p, b);
    } else {
      Replacing(p, q, b);
    }
  }

  /** With or without its last character, either word is at most one further away. */
  lemma {:induction false} LastCharacter(a: string, b: string)
    ensures a != [] ==> Distance(Init(a), b) <= 1 + Distance(a, b) && Distance(a, b) <= 1 + Distance(Init(a), b)
    ensures b != [] ==> Distance(a, Init(b)) <= 1 + Distance(a, b) && Distance(a, b) <= 1 + Distance(a, Init(b))
    decreases |a| + |b|
  {
    if a != [] && b != [] {
      LastCharacter(Init(a), b);
      LastCharacter(a, Init(b));
    }
  }

  lemma {:induction false} Replacing(p: string, q: string, b: string)
    requires p != [] && q != [] && Init(p) == Init(q)
    ensures Distance(p, b) <= 1 + Distance(q, b)
    decreases |b|
  {
    if b != [] {
      Replacing(p, q, Init(b));
      LastCharacter(Init(p), b);
      LastCharacter(q, Init(b));
      ReplacingLast(p, q, b);
    }
  }

  /** The step, from what is known of the shorter words. */
  lemma ReplacingLast(p: string, q: string, b: string)
    requires p != [] && q != [] && b != [] && Init(p) == Init(q)
    requires Distance(p, Init(b)) <= 1 + Distance(q, Init(b))
    requires Distance(Init(p), Init(b)) <= 1 + Distance(Init(p), b)
    requires Distance(Init(p), Init(b)) <= 1 + Distance(q, Init(b))
    ensures Distance(p, b) <= 1 + Distance(q, b)
  {
    Recurrence(p, b);
    Recurrence(q, b);
    Cheapest(Distance(Init(p), b), Distance(p, Init(b)), Distance(q, Init(b)), Distance(Init(p), Init(b)));
  }

  lemma Cheapest(x: nat, y: nat, y': nat, z: nat)
    requires y <= 1 + y' && z <= 1 + x && z <= 1 + y'
    ensures Min(Min(x, y), z) <= 1 + Min(Min(x, y'), z)
    ensures z <= 2 + Min(Min(x, y'), z) && Min(Min(x, y), z) <= z
  {
  }

  lemma Recurrence(a: string, b: string)
    requires a != [] && b != []
    ensures Distance(a, b) ==
      if Final(a) == Final(b) then Distance(Init(a), Init(b))
      else 1 + Min(Min(Distance(Init(a), b), Distance(a, Init(b))), Distance(Init(a), Init(b)))
  {
  }

  // ---------------------------------------------------------------- a script that short exists

  lemma {:induction false} Shortest(a: string, b: string) returns (script: seq<Edit>)
    ensures Turns(a, script, b) && |script| == Distance(a, b)
    decreases |a| + |b|
  {
    if a == [] && b == [] {
      script := [];
    } else if a != [] && b != [] && Final(a) == Final(b) {
      script := Shortest(Init(a), Init(b));
      UnderFinal(Init(a), script, b);
      AtEnd(a, Final(b));
    } else if b == [] || (a != [] && Distance(a, b) == 1 + Distance(Init(a), b)) {
      script := Shortest(Init(a), b);
      AtEnd(a, Final(a));
      script := First(a, Delete(|a| - 1), script, b);
    } else if a == [] || Distance(a, b) == 1 + Distance(a, Init(b)) {
      script := Shortest(a, Init(b));
      UnderFinal(a, script, b);
      AtEnd(a, Final(b));
      script := First(a, Insert(|a|, Final(b)), script, b);
    } else {
      script := Shortest(Init(a), Init(b));
      UnderFinal(Init(a), script, b);
      AtEnd(a, Final(b));
      script := First(a, Replace(|a| - 1, Final(b)), script, b);
    }
  }

  /** The three edits at the end of a word. */
  lemma AtEnd(a: string, c: char)
    ensures Apply(a, Insert(|a|, c)) == a + [c]
    ensures a != [] ==> Apply(a, Delete(|a| - 1)) == Init(a)
    ensures a != [] ==> Apply(a, Replace(|a| - 1, c)) == Init(a) + [c]
    ensures a != [] && Final(a) == c ==> a == Init(a) + [c]
  {
  }

  lemma UnderFinal(a: string, script: seq<Edit>, b: string)
    requires b != [] && Turns(a, script, Init(b))
    ensures Turns(a + [Final(b)], script, b)
  {
    var last := [Final(b)];
    assert Init(b) + last == b;
    UnderTail(a, script, Init(b), last);
  }

  /** An edit put before a script. */
  lemma First(a: string, edit: Edit, rest: seq<Edit>, b: string) returns (script: seq<Edit>)
    requires Applies(a, edit) && Turns(Apply(a, edit), rest, b)
    ensures Turns(a, script, b) && |script| == 1 + |rest|
  {
    script := [edit] + rest;
    assert script[1..] == rest;
  }

  lemma ApplyUnderTail(a: string, edit: Edit, tail: string)
    requires Applies(a, edit)
    ensures Applies(a + tail, edit) && Apply(a + tail, edit) == Apply(a, edit) + tail
  {
    var at := edit.at;
    assert (a + tail)[..at] == a[..at] && (a + tail)[at..] == a[at..] + tail;
    if at < |a| {
      assert (a + tail)[at + 1..] == a[at + 1..] + tail;
    }
  }

  /** A script works the same when both words carry a common tail. */
  lemma {:induction false} UnderTail(a: string, script: seq<Edit>, b: string, tail: string)
    requires Turns(a, script, b)
    ensures Turns(a + tail, script, b + tail)
    decreases |script|
  {
    if script != [] {
      UnderTail(Apply(a, script[0]), script[1..], b, tail);
      ApplyUnderTail(a, script[0], tail);
    }
  }
}
