/** What the window search computes, and when that is the shortest window that covers the pattern. */
module WindowSearch {
  import opened Sequences
  import opened Recency

  /** The value of the counter that `min_win` compares with the pattern's length. */
  function Counter(s: string, p: string): nat {
    |Seen(s, p)| + Extra(s, p)
  }

  lemma {:induction false} MetElements(s: string, p: string)
    ensures Elements(Met(s, p)) == Seen(s, p)
  {
    if s == [] {
      assert Seen(s, p) == {};
    } else {
      MetElements(s[..|s| - 1], p);
      SeenStep(s, p);
    }
  }

  lemma {:induction false} NothingMet(s: string, p: string)
    requires Seen(s, p) == {}
    ensures Met(s, p) == []
  {
    if s != [] {
      SeenStep(s, p);
      NothingMet(s[..|s| - 1], p);
    }
  }

  lemma SeenStep(s: string, p: string)
    requires s != []
    ensures Seen(s, p) == Seen(s[..|s| - 1], p) + if s[|s| - 1] in p then {s[|s| - 1]} else {}
  {
    assert s == s[..|s| - 1] + [s[|s| - 1]];
  }

  /** One more input character raises the counter by one exactly when the character is a new pattern
      character, or when it repeats the only one met so far for the first time. */
  lemma CounterStep(s: string, p: string)
    requires s != []
    ensures var c, s' := s[|s| - 1], s[..|s| - 1];
            var grows := c in p && (c !in s' || (Seen(s', p) == {c} && Extra(s', p) == 0));
            && Counter(s, p) == Counter(s', p) + (if grows then 1 else 0)
            && Extra(s, p) == if grows && c in s' then 1 else Extra(s', p)
  {
    var c, s' := s[|s| - 1], s[..|s| - 1];
    var met := Met(s', p);
    SeenStep(s, p);
    MetElements(s', p);
    if c in p {
      assert c in s' <==> c in Elements(met);
      if |met| == 1 {
        assert Elements(met) == {met[0]};
      } else if |met| >= 2 {
        assert met[0] in Elements(met) && met[1] in Elements(met);
      }
      if c in s' {
        assert Seen(s, p) == Seen(s', p);
      } else {
        assert Seen(s', p) !! {c};
      }
    } else {
      assert Seen(s, p) == Seen(s', p);
    }
  }

  /** Every prefix has a smaller counter, and `Extra` settles once two pattern characters are met. */
  lemma {:induction false} CounterMonotone(s: string, p: string, k: nat)
    requires k <= |s|
    ensures Counter(s[..k], p) <= Counter(s, p)
    ensures Seen(s[..k], p) <= Seen(s, p)
    ensures Extra(s[..k], p) <= Extra(s, p)
    ensures |Met(s[..k], p)| >= 2 ==> |Met(s, p)| >= 2 && Extra(s[..k], p) == Extra(s, p)
  {
    if k == |s| {
      assert s[..k] == s;
    } else {
      assert s[..|s| - 1][..k] == s[..k];
      CounterMonotone(s[..|s| - 1], p, k);
      CounterStep(s, p);
      SeenStep(s, p);
    }
  }

  /** The test at which `min_win` records a window: a pattern character has just been read and
      the counter equals the pattern's length. */
  predicate Fires(s: string, p: string) {
    s != [] && s[|s| - 1] in p && Counter(s, p) == |p|
  }

  /** The counter passes through every value, so it reaches the pattern's length exactly when its final
      value is at least that. */
  lemma {:induction false} FiresSomewhere(s: string, p: string)
    ensures (exists k :: 0 <= k <= |s| && Fires(s[..k], p)) <==> 1 <= |p| <= Counter(s, p)
  {
    if k :| 0 <= k <= |s| && Fires(s[..k], p) {
      CounterMonotone(s, p, k);
    }
    if 1 <= |p| <= Counter(s, p) {
      var k := ReachesLength(s, p);
    }
  }

  lemma CounterOfNothing(p: string)
    ensures Counter([], p) == 0
  {
    assert Seen([], p) == {};
  }

  lemma {:induction false} ReachesLength(s: string, p: string) returns (k: nat)
    requires 1 <= |p| <= Counter(s, p)
    ensures k <= |s| && Fires(s[..k], p)
  {
    CounterOfNothing(p);
    if s != [] {
      CounterStep(s, p);
      if |p| <= Counter(s[..|s| - 1], p) {
        k := ReachesLength(s[..|s| - 1], p);
        assert s[..|s| - 1][..k] == s[..k];
      } else {
        k := |s|;
        assert s[..k] == s;
      }
    }
  }

  /** The best window found so far, as the half-open range `[start, end)` of input positions. */
  datatype Found = Nothing | Window(start: nat, end: nat)

  function Scan(s: string, p: string): Found {
    if s == [] then Nothing
    else
      var before := Scan(s[..|s| - 1], p);
      var start := FrontStart(s, p);
      if Fires(s, p) && (before == Nothing || |s| - start < before.end - before.start)
      then Window(start, |s|)
      else before
  }

  ghost predicate AtLeastAsLong(s: string, p: string, w: Found)
    requires w.Window?
  {
    var length := |s| - FrontStart(s, p);
    length > w.end - w.start || (length == w.end - w.start && |s| >= w.end)
  }

  /** `w` is the first shortest of the windows recorded while reading `s`. */
  ghost predicate FirstShortest(s: string, p: string, w: Found) {
    && w.Window?
    && w.start < w.end <= |s| && Fires(s[..w.end], p) && w.start == FrontStart(s[..w.end], p)
    && forall k :: 0 <= k <= |s| && Fires(s[..k], p) ==> AtLeastAsLong(s[..k], p, w)
  }

  ghost predicate NoneFired(s: string, p: string) {
    forall k :: 0 <= k <= |s| ==> !Fires(s[..k], p)
  }

  lemma KeepRecord(s: string, p: string, w: Found)
    requires s != [] && FirstShortest(s[..|s| - 1], p, w)
    requires Fires(s, p) ==> AtLeastAsLong(s, p, w)
    ensures FirstShortest(s, p, w)
  {
    var s' := s[..|s| - 1];
    assert s'[..w.end] == s[..w.end];
    forall k | 0 <= k <= |s| && Fires(s[..k], p) ensures AtLeastAsLong(s[..k], p, w) {
      if k == |s| { assert s[..k] == s; } else { assert s'[..k] == s[..k]; }
    }
  }

  lemma NewRecord(s: string, p: string, before: Found)
    requires Fires(s, p)
    requires if before == Nothing then NoneFired(s[..|s| - 1], p)
             else FirstShortest(s[..|s| - 1], p, before) && |s| - FrontStart(s, p) < before.end - before.start
    ensures FirstShortest(s, p, Window(FrontStart(s, p), |s|))
  {
    var s', w := s[..|s| - 1], Window(FrontStart(s, p), |s|);
    FrontInside(s, p);
    assert s[..w.end] == s;
    forall k | 0 <= k <= |s| && Fires(s[..k], p) ensures AtLeastAsLong(s[..k], p, w) {
      if k < |s| {
        assert s'[..k] == s[..k];
        RecordBounds(s', p, before, k);
      } else {
        assert s[..k] == s;
      }
    }
  }

  lemma RecordBounds(s: string, p: string, w: Found, k: nat)
    requires k <= |s| && Fires(s[..k], p)
    requires if w == Nothing then NoneFired(s, p) else FirstShortest(s, p, w)
    ensures w.Window? && k - FrontStart(s[..k], p) >= w.end - w.start
  {
    assert w != Nothing;
    assert AtLeastAsLong(s[..k], p, w);
  }

  /** `Scan` keeps the first shortest of the windows recorded, or nothing when none was. */
  lemma {:induction false} ScanKeepsShortest(s: string, p: string)
    ensures if Scan(s, p) == Nothing then NoneFired(s, p) else FirstShortest(s, p, Scan(s, p))
  {
    if s != [] {
      var s', before := s[..|s| - 1], Scan(s[..|s| - 1], p);
      ScanKeepsShortest(s', p);
      if Scan(s, p) == Nothing {
        assert s[..|s|] == s;
        assert forall k :: 0 <= k < |s| ==> s'[..k] == s[..k];
      } else if Scan(s, p) == before {
        KeepRecord(s, p, before);
      } else {
        NewRecord(s, p, before);
      }
    }
  }

  lemma FrontInside(s: string, p: string)
    requires s != [] && s[|s| - 1] in p
    ensures FrontStart(s, p) < |s| && s[FrontStart(s, p)] in p
  {
    LeastRecentHoldsSeen(s, p);
    SeenStep(s, p);
    assert s[|s| - 1] in Elements(LeastRecent(s, p));
    SeenInBoth(s, p, 0);
  }

  lemma ScanBounds(s: string, p: string)
    ensures Scan(s, p).Window? ==> Scan(s, p).start < Scan(s, p).end <= |s|
  {
    ScanKeepsShortest(s, p);
  }

  /** The string that `min_win` returns. */
  function Answer(input: string, p: string): (r: string)
  {
    ScanBounds(input, p);
    match Scan(input, p)
    case Nothing => []
    case Window(start, end) => input[start..end]
  }

  /** Every prefix that ends with a pattern character and brings the counter to the pattern's length is
      measured: the window kept is no longer than the one at its end, and no later if equally long. */
  lemma MeasuredEverywhere(input: string, p: string, k: nat)
    requires 0 < k <= |input| && input[k - 1] in p
    requires |set c | c in input[..k] && c in p| + Extra(input[..k], p) == |p|
    ensures var w, length := Scan(input, p), k - FrontStart(input[..k], p);
            w.Window? && (w.end - w.start < length || (w.end - w.start == length && w.end <= k))
  {
    assert Seen(input[..k], p) == set c | c in input[..k] && c in p;
    ScanKeepsShortest(input, p);
    assert Fires(input[..k], p);
    assert AtLeastAsLong(input[..k], p, Scan(input, p));
  }

  /** The window kept is one of those measured: it ends with a pattern character, at which the counter is the
      pattern's length, and begins at the front. */
  lemma MeasuredSomewhere(input: string, p: string) returns (k: nat)
    requires Answer(input, p) != []
    ensures 0 < k <= |input| && input[k - 1] in p
    ensures |set c | c in input[..k] && c in p| + Extra(input[..k], p) == |p|
    ensures Scan(input, p) == Window(FrontStart(input[..k], p), k)
    ensures Answer(input, p) == input[FrontStart(input[..k], p)..k]
  {
    hide Fires, Extra, FrontStart, Scan, AtLeastAsLong, NoneFired;
    ScanKeepsShortest(input, p);
    k := Scan(input, p).end;
    WhenFires(input[..k], p);
  }

  lemma WhenFires(s: string, p: string)
    requires Fires(s, p)
    ensures s != [] && s[|s| - 1] in p
    ensures |set c | c in s && c in p| + Extra(s, p) == |p|
  {
    assert Seen(s, p) == set c | c in s && c in p;
  }

  /** The counter is one too high exactly when the first two pattern characters met are equal. */
  lemma ExtraMeaning(s: string, p: string)
    ensures Extra(s, p) == 1 <==> exists i, j :: FirstTwoMet(s, p, i, j) && s[i] == s[j]
    ensures Extra(s, p) <= 1
  {
    if |Met(s, p)| >= 2 {
      var i, j := FirstTwo(s, p);
      assert forall i', j' :: FirstTwoMet(s, p, i', j') ==> i' == i && j' == j;
    } else if i, j :| FirstTwoMet(s, p, i, j) {
      MetAll(s, p, i, j);
    }
  }

  /** The positions of the first two pattern characters. */
  ghost predicate FirstTwoMet(s: string, p: string, i: int, j: int) {
    && 0 <= i < j < |s| && s[i] in p && s[j] in p
    && forall k :: 0 <= k < j && k != i ==> s[k] !in p
  }

  lemma {:induction false} MetAll(s: string, p: string, i: nat, j: nat)
    requires i < j < |s| && s[i] in p && s[j] in p
    ensures |Met(s, p)| >= 2
  {
    var s' := s[..|s| - 1];
    if j < |s| - 1 {
      MetAll(s', p, i, j);
    } else {
      MetElements(s', p);
      assert s'[i] in Seen(s', p);
      assert Met(s', p) != [];
    }
  }

  lemma {:induction false} FirstOne(s: string, p: string) returns (i: nat)
    requires Met(s, p) != []
    ensures i < |s| && s[i] in p && s[i] == Met(s, p)[0]
    ensures forall k :: 0 <= k < |s| && k != i && (k < i || |Met(s, p)| == 1) ==> s[k] !in p
  {
    var s' := s[..|s| - 1];
    if Met(s', p) == [] {
      i := |s| - 1;
      MetElements(s', p);
      forall k | 0 <= k < i ensures s[k] !in p {
        assert s'[k] !in Seen(s', p);
      }
    } else {
      i := FirstOne(s', p);
      assert forall k :: 0 <= k < |s'| ==> s[k] == s'[k];
    }
  }

  lemma {:induction false} FirstTwo(s: string, p: string) returns (i: nat, j: nat)
    requires |Met(s, p)| >= 2
    ensures FirstTwoMet(s, p, i, j) && s[i] == Met(s, p)[0] && s[j] == Met(s, p)[1]
  {
    var s' := s[..|s| - 1];
    if |Met(s', p)| == 1 {
      i := FirstOne(s', p);
      j := |s| - 1;
      assert forall k :: 0 <= k < |s'| ==> s[k] == s'[k];
    } else {
      i, j := FirstTwo(s', p);
      assert forall k :: 0 <= k < |s'| ==> s[k] == s'[k];
    }
  }

  // ----- the specification

  /** `input[i..j]` holds every pattern character. */
  ghost predicate Covers(input: string, p: string, i: int, j: int) {
    0 <= i <= j <= |input| && Holds(input[i..j], Elements(p))
  }

  /** `input[i..j]` covers the pattern, nothing shorter does, and it is the leftmost such. */
  ghost predicate LeftmostShortest(input: string, p: string, i: int, j: int) {
    && Covers(input, p, i, j)
    && forall i', j' :: Covers(input, p, i', j') ==> j' - i' > j - i || (j' - i' == j - i && i' >= i)
  }

  ghost predicate MeetsSpec(input: string, p: string, r: string) {
    if exists i, j :: Covers(input, p, i, j)
    then exists i, j :: LeftmostShortest(input, p, i, j) && r == input[i..j]
    else r == []
  }

  /** The specification leaves no choice. */
  lemma SpecIsUnique(input: string, p: string, r1: string, r2: string)
    requires MeetsSpec(input, p, r1) && MeetsSpec(input, p, r2)
    ensures r1 == r2
  {
  }

  /** When `min_win` can be trusted. If the input lacks some pattern character, the counter must stay below
      the pattern's length; otherwise it must end at that length. */
  predicate Reliable(input: string, p: string) {
    if Elements(p) <= Elements(input) then |p| <= 1 || Counter(input, p) == |p|
    else Counter(input, p) < |p|
  }

  lemma CoverExists(input: string, p: string)
    ensures (exists i, j :: Covers(input, p, i, j)) <==> Elements(p) <= Elements(input)
    ensures Elements(p) <= Elements(input) <==> Seen(input, p) == Elements(p)
    ensures |Seen(input, p)| <= |Elements(p)| <= |p|
    ensures |Seen(input, p)| == |Elements(p)| <==> Seen(input, p) == Elements(p)
  {
    if i, j :| Covers(input, p, i, j) {
      assert forall c :: c in p ==> c in Elements(p);
      assert Elements(p) <= Elements(input);
    }
    if Elements(p) <= Elements(input) {
      assert input[0..|input|] == input;
      assert Covers(input, p, 0, |input|);
    }
    ElementsBound(p);
    SubsetCount(Seen(input, p), Elements(p));
  }

  /** Any covering window contains the window that the search would measure at its last pattern character. */
  lemma {:induction false} LastPatternCharacter(input: string, p: string, i: nat, j: nat)
    requires p != [] && Covers(input, p, i, j)
    ensures exists k :: i < k <= j && input[k - 1] in p && Seen(input[..k], p) == Elements(p)
                        && i <= FrontStart(input[..k], p) && Covers(input, p, i, k)
  {
    var w := input[i..j];
    assert p[0] in Elements(p);
    assert p[0] in w;
    if input[j - 1] in p {
      var s := input[..j];
      assert s[i..] == w;
      assert Seen(s, p) == Elements(p);
      FrontStartIsTight(s, p, i);
      assert i < j <= j && input[j - 1] in p;
    } else {
      assert w == input[i..j - 1] + [input[j - 1]];
      forall c | c in Elements(p) ensures c in input[i..j - 1] {
        assert c in w;
      }
      LastPatternCharacter(input, p, i, j - 1);
      var k :| i < k <= j - 1 && input[k - 1] in p && Seen(input[..k], p) == Elements(p)
               && i <= FrontStart(input[..k], p) && Covers(input, p, i, k);
      assert i < k <= j && input[k - 1] in p;
    }
  }

  /** If the search fires exactly when all pattern characters have been seen, it finds the window asked for. */
  lemma ExactFiringIsCorrect(input: string, p: string)
    requires p != [] && Elements(p) <= Elements(input)
    requires forall k :: 0 < k <= |input| ==>
               (Fires(input[..k], p) <==> input[k - 1] in p && Seen(input[..k], p) == Elements(p))
    ensures MeetsSpec(input, p, Answer(input, p))
  {
    CoverExists(input, p);
    ScanKeepsShortest(input, p);
    var w := Scan(input, p);
    var i0, j0 :| Covers(input, p, i0, j0);
    LastPatternCharacter(input, p, i0, j0);
    assert w.Window?;
    var s := input[..w.end];
    FrontStartIsTight(s, p, w.start);
    assert s[w.start..] == input[w.start..w.end];
    assert Covers(input, p, w.start, w.end);
    forall i, j | Covers(input, p, i, j)
      ensures j - i > w.end - w.start || (j - i == w.end - w.start && i >= w.start)
    {
      LastPatternCharacter(input, p, i, j);
      var k :| i < k <= j && input[k - 1] in p && Seen(input[..k], p) == Elements(p)
               && i <= FrontStart(input[..k], p) && Covers(input, p, i, k);
      assert Fires(input[..k], p);
      assert AtLeastAsLong(input[..k], p, w);
    }
    assert LeftmostShortest(input, p, w.start, w.end);
  }

  /** Nothing is returned exactly when the counter never reached the pattern's length. */
  lemma AnswerEmpty(input: string, p: string)
    ensures Answer(input, p) == [] <==> Scan(input, p) == Nothing
    ensures Answer(input, p) == [] <==> !(1 <= |p| <= Counter(input, p))
  {
    ScanKeepsShortest(input, p);
    FiresSomewhere(input, p);
    var w := Scan(input, p);
    if w.Window? { assert Fires(input[..w.end], p); }
  }

  lemma CoveringAnswerNeeded(input: string, p: string, r: string)
    requires Elements(p) <= Elements(input) && MeetsSpec(input, p, r)
    ensures Holds(r, Elements(p))
  {
    CoverExists(input, p);
    var i, j :| LeftmostShortest(input, p, i, j) && r == input[i..j];
  }

  lemma UncoverableInput(input: string, p: string)
    requires !(Elements(p) <= Elements(input))
    ensures MeetsSpec(input, p, Answer(input, p)) <==> Counter(input, p) < |p|
  {
    CoverExists(input, p);
    AnswerEmpty(input, p);
    assert Elements<char>([]) == {};
  }

  lemma EmptyPattern(input: string)
    ensures MeetsSpec(input, [], Answer(input, []))
  {
    AnswerEmpty(input, []);
    assert LeftmostShortest(input, [], 0, 0);
    assert input[0..0] == [];
  }

  lemma {:induction false} FirstOccurrence(input: string, c: char) returns (f: nat)
    requires c in input
    ensures f < |input| && input[f] == c && forall k :: 0 <= k < f ==> input[k] != c
  {
    if input[0] == c {
      f := 0;
    } else {
      f := FirstOccurrence(input[1..], c);
      f := f + 1;
      assert forall k :: 1 <= k < f ==> input[k] == input[1..][k - 1];
    }
  }

  lemma OneCharacterWindow(input: string, p: string, c: char)
    requires Elements(p) == {c} && c in input
    ensures exists i, j :: LeftmostShortest(input, p, i, j) && input[i..j] == [c]
  {
    var f := FirstOccurrence(input, c);
    assert input[f..f + 1] == [c];
    forall i, j | Covers(input, p, i, j) ensures j - i > 1 || (j - i == 1 && i >= f) {
      assert c in input[i..j];
      var k :| i <= k < j && input[k] == c;
    }
    assert LeftmostShortest(input, p, f, f + 1);
  }

  lemma OneCharacterAnswer(input: string, p: string, c: char)
    requires Elements(p) == {c} && Scan(input, p).Window?
    ensures Answer(input, p) == [c]
  {
    ScanKeepsShortest(input, p);
    var w := Scan(input, p);
    var s := input[..w.end];
    LeastRecentHoldsSeen(s, p);
    FrontInside(s, p);
    assert s[|s| - 1] in Elements(p) && s[w.start] in Elements(p);
    FrontStartIsTight(s, p, |s| - 1);
    assert s[|s| - 1..] == [c];
    assert Seen(s, p) <= Elements(p);
  }

  /** A pattern of one character, however often repeated. */
  lemma OneCharacterPattern(input: string, p: string, c: char)
    requires Elements(p) == {c} && c in input
    ensures MeetsSpec(input, p, Answer(input, p)) <==> |p| <= Counter(input, p)
  {
    assert c in Elements(p);
    AnswerEmpty(input, p);
    CoverExists(input, p);
    OneCharacterWindow(input, p, c);
    if Scan(input, p).Window? {
      OneCharacterAnswer(input, p, c);
    } else if MeetsSpec(input, p, Answer(input, p)) {
      CoveringAnswerNeeded(input, p, Answer(input, p));
    }
  }

  lemma TwoSeenTwoMet(s: string, p: string)
    requires |Seen(s, p)| >= 2
    ensures |Met(s, p)| >= 2
  {
    MetElements(s, p);
    ElementsBound(Met(s, p));
  }

  /** With at least two pattern characters, all of them in the input, and the right final counter,
      the search fires exactly when it should. */
  lemma FiresWhenAllSeen(input: string, p: string, k: nat)
    requires Elements(p) <= Elements(input) && |Elements(p)| >= 2 && Counter(input, p) == |p|
    requires 0 < k <= |input|
    ensures Fires(input[..k], p) <==> input[k - 1] in p && Seen(input[..k], p) == Elements(p)
  {
    CoverExists(input, p);
    CounterMonotone(input, p, k);
    SubsetCount(Seen(input[..k], p), Elements(p));
    if Seen(input[..k], p) == Elements(p) {
      TwoSeenTwoMet(input[..k], p);
    }
  }

  /** When the counter runs ahead of the number of characters seen, every window is recorded too early. */
  lemma FiresTooEarly(input: string, p: string, k: nat)
    requires Elements(p) <= Elements(input) && 2 <= |p| < Counter(input, p)
    requires k <= |input| && Fires(input[..k], p)
    ensures Seen(input[..k], p) != Elements(p)
  {
    CoverExists(input, p);
    if Seen(input[..k], p) == Elements(p) {
      assert Seen(input[..k], p) == Seen(input, p);
      TwoSeenTwoMet(input, p);
      CounterMonotone(input, p, k);
      assert |Seen(input, p)| == |p|;
      TwoSeenTwoMet(input[..k], p);
      assert false;
    }
  }

  lemma WrongCounterMisses(input: string, p: string)
    requires Elements(p) <= Elements(input) && 2 <= |p| && Counter(input, p) != |p|
    ensures !Holds(Answer(input, p), Elements(p))
  {
    AnswerEmpty(input, p);
    ScanKeepsShortest(input, p);
    var r, w := Answer(input, p), Scan(input, p);
    if w.Window? {
      FiresTooEarly(input, p, w.end);
      assert r == input[..w.end][w.start..];
      assert Seen(input[..w.end], p) <= Elements(p);
      var c :| c in Elements(p) && c !in Seen(input[..w.end], p);
      assert c !in r;
    } else {
      assert p[0] in Elements(p) && p[0] !in r;
    }
  }

  lemma WrongCounterFails(input: string, p: string)
    requires Elements(p) <= Elements(input) && 2 <= |p| && Counter(input, p) != |p|
    ensures !MeetsSpec(input, p, Answer(input, p))
  {
    WrongCounterMisses(input, p);
    if MeetsSpec(input, p, Answer(input, p)) {
      CoveringAnswerNeeded(input, p, Answer(input, p));
    }
  }

  /** For every input and every pattern, `min_win` returns the leftmost shortest window that covers the
      pattern (or nothing, if there is none) if and only if `Reliable` holds. */
  lemma CorrectExactlyWhenReliable(input: string, p: string)
    ensures MeetsSpec(input, p, Answer(input, p)) <==> Reliable(input, p)
  {
    CoverExists(input, p);
    if !(Elements(p) <= Elements(input)) {
      UncoverableInput(input, p);
    } else if p == [] {
      EmptyPattern(input);
    } else if |Elements(p)| == 1 {
      assert p[0] in Elements(p);
      SubsetCount({p[0]}, Elements(p));
      OneCharacterPattern(input, p, p[0]);
    } else {
      assert p[0] in Elements(p);
      if |p| <= 1 || Counter(input, p) == |p| {
        forall k | 0 < k <= |input|
          ensures Fires(input[..k], p) <==> input[k - 1] in p && Seen(input[..k], p) == Elements(p)
        {
          FiresWhenAllSeen(input, p, k);
        }
        ExactFiringIsCorrect(input, p);
      } else {
        WrongCounterFails(input, p);
      }
    }
  }

  /** The case the code was written for: distinct pattern characters. */
  lemma DistinctPattern(input: string, p: string)
    requires NoDuplicates(p) && p != []
    ensures MeetsSpec(input, p, Answer(input, p))
       <==> |p| == 1 || Extra(input, p) == 0 || |Seen(input, p)| + 1 < |p|
    ensures |p| == 1 || Extra(input, p) == 0 ==>
              (Answer(input, p) == [] <==> !(Elements(p) <= Elements(input)))
  {
    NoDuplicatesCount(p);
    CoverExists(input, p);
    MetElements(input, p);
    assert Met(input, p) != [] ==> Met(input, p)[0] in Elements(Met(input, p));
    CorrectExactlyWhenReliable(input, p);
    AnswerEmpty(input, p);
  }

  /** Whatever the pattern, a nonempty answer is a piece of the input that begins and ends with
      pattern characters. */
  lemma AnswerEnds(input: string, p: string)
    requires Answer(input, p) != []
    ensures var r := Answer(input, p); r[0] in p && r[|r| - 1] in p
    ensures exists i, j :: 0 <= i < j <= |input| && Answer(input, p) == input[i..j]
  {
    ScanKeepsShortest(input, p);
    var w := Scan(input, p);
    FrontInside(input[..w.end], p);
    assert 0 <= w.start < w.end <= |input| && Answer(input, p) == input[w.start..w.end];
  }

  /** An input on which the code fails: the first two pattern characters met are equal, so `A` alone is
      taken for a window that covers `AB`. */
  lemma ForgottenNode()
    ensures !MeetsSpec("AAB", "AB", Answer("AAB", "AB"))
    ensures Elements("AB") <= Elements("AAB")
  {
    var s, p := "AAB", "AB";
    assert s[..2] == "AA" && s[..1] == "A" && s[..1][..0] == "";
    assert s[..2][..1] == s[..1];
    assert Met(s[..1], p) == "A";
    assert Met(s[..2], p) == "AA";
    assert Met(s, p) == "AAB";
    assert NoDuplicates(p);
    assert s[0] == 'A' && s[2] == 'B';
    assert Seen(s, p) == {'A', 'B'};
    DistinctPattern(s, p);
    assert p[0] == 'A' && p[1] == 'B';
  }
}
