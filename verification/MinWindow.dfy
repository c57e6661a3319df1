/** The smallest window of `s` that holds every character of `t`, with multiplicity. */
module MinWindow {
  /** The characters of the window from `i` to `j`; HeldIsWindow says so in terms of the substring. */
  ghost function Held(s: string, i: int, j: int): multiset<char>
    requires 0 <= i <= j <= |s|
    decreases j - i
  {
    if i == j then multiset{} else Held(s, i, j - 1) + multiset{s[j - 1]}
  }

  ghost predicate Covers(s: string, t: multiset<char>, i: int, j: int) {
    0 <= i <= j <= |s| && t <= Held(s, i, j)
  }

  /** No window holding `t` is shorter, and of the shortest this is the leftmost. */
  ghost predicate IsSmallest(s: string, t: multiset<char>, i: int, j: int) {
    && Covers(s, t, i, j)
    && forall a, b :: Covers(s, t, a, b) ==> j - i < b - a || (j - i == b - a && i <= a)
  }

  /** A Counter reads 0 for a character it does not hold. */
  function Count(need: map<char, int>, c: char): int {
    if c in need then need[c] else 0
  }

  function CounterOf(t: string): map<char, int> {
    map c | c in t :: multiset(t)[c]
  }

  /**
   `need` is what `t` asks for beyond the window, negative where there is a surplus, and
   `missing` is how many characters of `t` the window lacks.
   */
  ghost predicate Exact(need: map<char, int>, missing: int, t: multiset<char>, w: multiset<char>) {
    && (forall c :: Count(need, c) + w[c] == t[c])
    && missing == |t - w|
  }

  /** `need` and `missing` are exact for the window from `i` to `j`. */
  ghost predicate Tracks(need: map<char, int>, missing: int, s: string, t: multiset<char>, i: int, j: int) {
    0 <= i <= j <= |s| && Exact(need, missing, t, Held(s, i, j))
  }

  /** Among the windows ending by `right`, [start, end) is the smallest; end is 0 when there is none. */
  ghost predicate BestUpTo(s: string, t: multiset<char>, start: int, end: int, right: int) {
    && 0 <= start <= end <= right
    && (if end > 0 then Covers(s, t, start, end) else start == 0)
    && (forall a, b :: Covers(s, t, a, b) && b <= right ==>
          end > 0 && (end - start < b - a || (end - start == b - a && start <= a)))
  }

  /** Between two characters: something is missing, and windows reaching back before `left` are beaten already. */
  ghost predicate Searching(need: map<char, int>, missing: int, s: string, t: multiset<char>,
                            left: int, start: int, end: int, right: int) {
    && Tracks(need, missing, s, t, left, right) && missing > 0
    && (left > 0 ==> 0 < end && end - start <= right - left + 1)
    && BestUpTo(s, t, start, end, right)
  }

  /** The leftmost of the shortest windows, or nothing when no window holds `t`. */
  ghost predicate IsAnswer(s: string, t: multiset<char>, r: string) {
    if exists i, j :: Covers(s, t, i, j)
    then exists i, j :: IsSmallest(s, t, i, j) && r == s[i..j]
    else r == ""
  }

  method MinWindowSubstring(s: string, t: string) returns (r: string)
    ensures IsAnswer(s, multiset(t), r)
  {
    ghost var all := multiset(t);
    if s == "" || t == "" {
      EmptyInputs(s, t);
      return "";
    }
    var need := CounterOf(t);
    var missing := |t|;
    var left, start, end := 0, 0, 0;
    BeforeFirst(s, t);
    var right := 0;
    while right < |s|
      invariant 0 <= right <= |s| && Searching(need, missing, s, all, left, start, end, right)
    {
      ghost var need0, missing0, right0 := need, missing, right;
      var ch := s[right];
      right := right + 1;
      if Count(need, ch) > 0 {
        missing := missing - 1;
      }
      need := need[ch := Count(need, ch) - 1];
      AddRight(need0, missing0, s, all, left, right0, need, missing, right);
      if missing == 0 {
        need, left := Tighten(need, s, all, left, right);
        ghost var need2, left2, start2, end2 := need, left, start, end;
        if end == 0 || right - left < end - start {
          start, end := left, right;
        }
        BestWithWindow(need2, missing, s, all, start2, end2, right0, left2, right);
        need := need[s[left] := Count(need, s[left]) + 1];
        missing := missing + 1;
        left := left + 1;
        Slide(need2, s, all, start2, end2, right0, left2, right, need, start, end, left);
      } else {
        BestWithout(need, missing, s, all, start, end, right0, left, right);
      }
    }
    SmallestOfAll(s, all, start, end);
    r := s[start..end];
  }

  /** The inner loop: let go of surplus characters on the left. */
  method Tighten(need0: map<char, int>, s: string, ghost t: multiset<char>, left0: int, right: int)
    returns (need: map<char, int>, left: int)
    requires Tracks(need0, 0, s, t, left0, right)
    ensures Tracks(need, 0, s, t, left, right)
    ensures left < right ==> Count(need, s[left]) >= 0
  {
    need, left := need0, left0;
    while left < right && Count(need, s[left]) < 0
      invariant Tracks(need, 0, s, t, left, right)
      decreases right - left
    {
      ghost var before, first := need, left;
      need := need[s[left] := Count(need, s[left]) + 1];
      left := left + 1;
      DropLeft(before, 0, s, t, first, right, need, 0, left);
    }
  }

  // ---------------------------------------------------------------- windows and substrings

  lemma {:induction false} HeldIsWindow(s: string, i: int, j: int)
    requires 0 <= i <= j <= |s|
    ensures Held(s, i, j) == multiset(s[i..j])
    decreases j - i
  {
    if i < j {
      HeldIsWindow(s, i, j - 1);
      assert s[i..j] == s[i..j - 1] + [s[j - 1]];
    }
  }

  /** Covers, said of the substring itself. */
  lemma CoversMeans(s: string, t: string, i: int, j: int)
    ensures Covers(s, multiset(t), i, j) <==> 0 <= i <= j <= |s| && multiset(t) <= multiset(s[i..j])
  {
    if 0 <= i <= j <= |s| {
      HeldIsWindow(s, i, j);
    }
  }

  lemma {:induction false} HeldFirst(s: string, i: int, j: int)
    requires 0 <= i < j <= |s|
    ensures Held(s, i, j) == Held(s, i + 1, j) + multiset{s[i]}
    decreases j - i
  {
    if i + 1 < j {
      HeldFirst(s, i, j - 1);
    }
  }

  lemma {:induction false} HeldWider(s: string, a: int, i: int, j: int)
    requires 0 <= a <= i <= j <= |s|
    ensures Held(s, i, j) <= Held(s, a, j)
    decreases i - a
  {
    if a < i {
      HeldFirst(s, a, j);
      HeldWider(s, a + 1, i, j);
    }
  }

  /** No empty window holds a non-empty `t`. */
  lemma NeedsRoom(s: string, t: multiset<char>)
    requires t != multiset{}
    ensures forall i, j :: Covers(s, t, i, j) ==> i < j
  {
    var c :| c in t;
  }

  lemma EmptyInputs(s: string, t: string)
    requires s == "" || t == ""
    ensures IsAnswer(s, multiset(t), "")
  {
    if t != "" {
      assert t[0] in multiset(t);
      NeedsRoom(s, multiset(t));
    } else {
      assert IsSmallest(s, multiset(t), 0, 0) && s[0..0] == "";
    }
  }

  lemma BeforeFirst(s: string, t: string)
    requires t != ""
    ensures Tracks(CounterOf(t), |t|, s, multiset(t), 0, 0)
    ensures multiset(t) != multiset{}
    ensures BestUpTo(s, multiset(t), 0, 0, 0)
  {
    assert multiset(t) - multiset{} == multiset(t);
    assert t[0] in multiset(t);
    NeedsRoom(s, multiset(t));
  }

  lemma SmallestOfAll(s: string, t: multiset<char>, start: int, end: int)
    requires BestUpTo(s, t, start, end, |s|)
    ensures IsAnswer(s, t, s[start..end])
  {
    if exists i, j :: Covers(s, t, i, j) {
      assert IsSmallest(s, t, start, end);
    } else {
      assert !Covers(s, t, start, end);
    }
  }

  // ---------------------------------------------------------------- need and missing stay exact

  /** The window from `i` grown to end at `next`, with what the loop then holds in `need` and `missing`. */
  lemma AddRight(need: map<char, int>, missing: int, s: string, t: multiset<char>,
                 i: int, j: int, needed: map<char, int>, after: int, next: int)
    requires j < |s| && next == j + 1 && Tracks(need, missing, s, t, i, j)
    requires after == if Count(need, s[j]) > 0 then missing - 1 else missing
    requires needed == need[s[j] := Count(need, s[j]) - 1]
    ensures Tracks(needed, after, s, t, i, next)
  {
    AddOne(need, missing, t, Held(s, i, j), s[j]);
    assert Held(s, i, next) == Held(s, i, j) + multiset{s[j]};
  }

  /** The window up to `j` shrunk to start at `next`, with what the loop then holds in `need` and `missing`. */
  lemma DropLeft(need: map<char, int>, missing: int, s: string, t: multiset<char>,
                 i: int, j: int, needed: map<char, int>, after: int, next: int)
    requires i < j && next == i + 1 && Tracks(need, missing, s, t, i, j)
    requires after == if Count(need, s[i]) >= 0 then missing + 1 else missing
    requires needed == need[s[i] := Count(need, s[i]) + 1]
    ensures Tracks(needed, after, s, t, next, j)
  {
    HeldFirst(s, i, j);
    DropOne(need, missing, t, Held(s, next, j), s[i]);
  }

  lemma AddOne(need: map<char, int>, missing: int, t: multiset<char>, w: multiset<char>, ch: char)
    requires Exact(need, missing, t, w)
    ensures Count(need, ch) > 0 ==> Exact(need[ch := Count(need, ch) - 1], missing - 1, t, w + multiset{ch})
    ensures Count(need, ch) <= 0 ==> Exact(need[ch := Count(need, ch) - 1], missing, t, w + multiset{ch})
  {
    if Count(need, ch) > 0 {
      assert t - (w + multiset{ch}) == (t - w) - multiset{ch};
    } else {
      assert t - (w + multiset{ch}) == t - w;
    }
  }

  lemma DropOne(need: map<char, int>, missing: int, t: multiset<char>, w: multiset<char>, ch: char)
    requires Exact(need, missing, t, w + multiset{ch})
    ensures Count(need, ch) >= 0 ==> Exact(need[ch := Count(need, ch) + 1], missing + 1, t, w)
    ensures Count(need, ch) < 0 ==> Exact(need[ch := Count(need, ch) + 1], missing, t, w)
  {
    assert Count(need, ch) + (w + multiset{ch})[ch] == t[ch];
    if Count(need, ch) >= 0 {
      assert t - (w + multiset{ch}) == (t - w) - multiset{ch};
    } else {
      assert t - (w + multiset{ch}) == t - w;
    }
  }

  lemma NothingMissing(t: multiset<char>, w: multiset<char>)
    ensures |t - w| == 0 <==> t <= w
  {
    if |t - w| == 0 {
      forall c ensures t[c] <= w[c] {
        assert c !in t - w;
      }
    } else {
      var c :| c in t - w;
      assert t[c] > w[c];
    }
  }

  // ---------------------------------------------------------------- which windows can still matter

  /** A window inside one that lacks something lacks it too. */
  lemma Narrower(s: string, t: multiset<char>, a: int, i: int, j: int)
    requires 0 <= a <= i <= j <= |s| && |t - Held(s, a, j)| > 0
    ensures !Covers(s, t, i, j)
  {
    HeldWider(s, a, i, j);
    NothingMissing(t, Held(s, a, j));
  }

  /** Once the first character is not in surplus, no window with the same end starts later. */
  lemma TightLeft(need: map<char, int>, s: string, t: multiset<char>, left: int, right: int)
    requires left < right && Tracks(need, 0, s, t, left, right)
    requires Count(need, s[left]) >= 0
    ensures forall a :: Covers(s, t, a, right) ==> a <= left
  {
    var next := left + 1;
    DropLeft(need, 0, s, t, left, right, need[s[left] := Count(need, s[left]) + 1], 1, next);
    forall a | left < a <= right ensures !Covers(s, t, a, right) {
      Narrower(s, t, next, a, right);
    }
  }

  /** A window ending last wins only by being strictly shorter: at equal length the earlier starts first. */
  lemma BestWithWindow(need: map<char, int>, missing: int, s: string, t: multiset<char>,
                       start: int, end: int, before: int, left: int, right: int)
    requires BestUpTo(s, t, start, end, before) && right == before + 1
    requires missing == 0 && Tracks(need, missing, s, t, left, right) && t != multiset{}
    requires left < right ==> Count(need, s[left]) >= 0
    ensures left < right
    ensures if end == 0 || right - left < end - start
            then BestUpTo(s, t, left, right, right)
            else BestUpTo(s, t, start, end, right)
  {
    NothingMissing(t, Held(s, left, right));
    NeedsRoom(s, t);
    assert Covers(s, t, left, right);
    TightLeft(need, s, t, left, right);
    ShorterWins(s, t, start, end, before, left, right);
  }

  /** From a tight window to the search for the next one. */
  lemma Slide(need: map<char, int>, s: string, t: multiset<char>,
              start: int, end: int, before: int, left: int, right: int,
              needed: map<char, int>, start': int, end': int, next: int)
    requires BestUpTo(s, t, start, end, before) && right == before + 1
    requires Tracks(need, 0, s, t, left, right) && left < right && Count(need, s[left]) >= 0
    requires needed == need[s[left] := Count(need, s[left]) + 1] && next == left + 1
    requires (start', end') == if end == 0 || right - left < end - start then (left, right) else (start, end)
    requires BestUpTo(s, t, start', end', right)
    ensures Searching(needed, 1, s, t, next, start', end', right)
  {
    DropLeft(need, 0, s, t, left, right, needed, 1, next);
  }

  lemma ShorterWins(s: string, t: multiset<char>, start: int, end: int, before: int, left: int, right: int)
    requires BestUpTo(s, t, start, end, before) && right == before + 1
    requires Covers(s, t, left, right) && left < right
    requires forall a :: Covers(s, t, a, right) ==> a <= left
    ensures if end == 0 || right - left < end - start
            then BestUpTo(s, t, left, right, right)
            else BestUpTo(s, t, start, end, right)
  {
  }

  /** Windows reaching back before `left` are already beaten. */
  lemma BestWithout(need: map<char, int>, missing: int, s: string, t: multiset<char>,
                    start: int, end: int, before: int, left: int, right: int)
    requires BestUpTo(s, t, start, end, before) && right == before + 1
    requires missing > 0 && Tracks(need, missing, s, t, left, right)
    requires left > 0 ==> 0 < end && end - start <= right - left
    ensures BestUpTo(s, t, start, end, right)
  {
    forall a | left <= a <= right ensures !Covers(s, t, a, right) {
      Narrower(s, t, left, a, right);
    }
    NothingBetter(s, t, start, end, before, left, right);
  }

  lemma NothingBetter(s: string, t: multiset<char>, start: int, end: int, before: int, left: int, right: int)
    requires BestUpTo(s, t, start, end, before) && right == before + 1
    requires forall a :: Covers(s, t, a, right) ==> a < left
    requires left > 0 ==> 0 < end && end - start <= right - left
    ensures BestUpTo(s, t, start, end, right)
  {
  }
}
