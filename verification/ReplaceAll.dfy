/** The in-place replacement of every occurrence of a string, with its wrapping cursor. */
module ReplaceAll {
  import opened Machine

  // ----- the library operations on a string

  predicate OccursAt(s: string, pattern: string, at: int) {
    0 <= at && at + |pattern| <= |s| && s[at..at + |pattern|] == pattern
  }

  /** The first occurrence at or after `from`. */
  function FirstFrom(s: string, pattern: string, from: nat): (r: Option<nat>)
    ensures r.Some? ==> from <= r.value <= |s| - |pattern| && OccursAt(s, pattern, r.value)
    ensures forall q :: from <= q && OccursAt(s, pattern, q) ==> r.Some? && r.value <= q
    decreases |s| - from
  {
    if from + |pattern| > |s| then None
    else if OccursAt(s, pattern, from) then Some(from)
    else FirstFrom(s, pattern, from + 1)
  }

  /** `s` with the `n` characters at `at` replaced by `t`. */
  function Splice(s: string, at: nat, n: nat, t: string): (r: string)
    requires at + n <= |s|
    ensures |r| == |s| - n + |t|
  {
    s[..at] + t + s[at + n..]
  }

  /** A std::string object. */
  class StdString {
    var text: string

    constructor (text: string)
      ensures this.text == text
    {
      this.text := text;
    }

    method Find(pattern: string, from: size_t) returns (r: size_t)
      requires |text| < 0x8000_0000_0000_0000
      ensures r < 0x8000_0000_0000_0000 || r == 0xFFFF_FFFF_FFFF_FFFF
      ensures r == match FirstFrom(text, pattern, from) case None => MARKER case Some(at) => at
    {
      var found := FirstFrom(text, pattern, from);
      r := if found.Some? then found.value else MARKER;
    }

    /** Throws std::length_error, and changes nothing, when the result would be too long. */
    method Replace(at: size_t, n: size_t, t: string) returns (thrown: bool)
      requires at + n <= |text|
      modifies this
      ensures thrown <==> |old(text)| - n + |t| >= 0x8000_0000_0000_0000
      ensures text == if thrown then old(text) else Splice(old(text), at, n, t)
    {
      thrown := |text| - n + |t| > MAX_STRING;
      if !thrown {
        text := Splice(text, at, n, t);
      }
    }
  }

  // ----- what the loop computes, with the cursor as an integer

  /** The text after the loop has run from cursor `i`. A negative cursor stands for a wrapped one,
      from which nothing is found any more. */
  function Run(s: string, before: string, after: string, i: int): string
    decreases if 0 <= i <= |s| then |s| - i + 1 else 0
  {
    if i < 0 then s
    else
      match FirstFrom(s, before, i)
      case None => s
      case Some(at) => Run(Splice(s, at, |before|, after), before, after, at + |after| - |before| + 1)
  }

  /** How many times the loop body runs. */
  function Passes(s: string, before: string, after: string, i: int): nat
    decreases if 0 <= i <= |s| then |s| - i + 1 else 0
  {
    if i < 0 then 0
    else
      match FirstFrom(s, before, i)
      case None => 0
      case Some(at) => 1 + Passes(Splice(s, at, |before|, after), before, after, at + |after| - |before| + 1)
  }

  function Replaced(s: string, before: string, after: string): string {
    Run(s, before, after, 0)
  }

  /** Each pass changes the length by the same amount, and there are at most as many passes as
      there are places left for an occurrence to begin. */
  lemma {:induction false} PassesCount(s: string, before: string, after: string, i: int)
    ensures |Run(s, before, after, i)| == |s| + Passes(s, before, after, i) * (|after| - |before|)
    ensures Passes(s, before, after, i) > 0 ==>
              i >= 0 && Passes(s, before, after, i) <= |s| - i - |before| + 1
    decreases if 0 <= i <= |s| then |s| - i + 1 else 0
  {
    hide *;
    if i >= 0 && FirstFrom(s, before, i).Some? {
      var at := FirstFrom(s, before, i).value;
      var s', i' := Splice(s, at, |before|, after), at + |after| - |before| + 1;
      OnePass(s, before, after, i, at);
      PassesCount(s', before, after, i');
      OneMoreTimes(Passes(s', before, after, i'), |after| - |before|);
    } else {
      NoPass(s, before, after, i);
    }
  }

  /** The text and the cursor after `k` passes. */
  function After(s: string, before: string, after: string, i: int, k: nat): (string, int)
    requires k <= Passes(s, before, after, i)
    decreases k
  {
    if k == 0 then (s, i)
    else
      var at := FirstFrom(s, before, i).value;
      After(Splice(s, at, |before|, after), before, after, at + |after| - |before| + 1, k - 1)
  }

  /** One pass more replaces the next occurrence found from the cursor, and the rest of the loop is what
      it would be from there. */
  lemma {:induction false} AfterOneMore(s: string, before: string, after: string, i: int, k: nat,
                                        t: string, cursor: int)
    requires k <= Passes(s, before, after, i) && After(s, before, after, i, k) == (t, cursor)
    ensures Run(t, before, after, cursor) == Run(s, before, after, i)
    ensures k + Passes(t, before, after, cursor) == Passes(s, before, after, i)
    ensures k < Passes(s, before, after, i) ==>
              && cursor >= 0 && FirstFrom(t, before, cursor).Some?
              && After(s, before, after, i, k + 1)
              == (Splice(t, FirstFrom(t, before, cursor).value, |before|, after),
                  FirstFrom(t, before, cursor).value + |after| - |before| + 1)
    decreases k
  {
    hide OccursAt, Splice;
    if k > 0 {
      var at := FirstFrom(s, before, i).value;
      AfterOneMore(Splice(s, at, |before|, after), before, after, at + |after| - |before| + 1, k - 1, t, cursor);
    }
  }

  lemma OneMoreTimes(n: nat, d: int)
    ensures (1 + n) * d == d + n * d
    ensures d != 0 ==> (1 + n) * d != 0
  {
  }

  lemma NoPass(s: string, before: string, after: string, i: int)
    requires i >= 0 ==> FirstFrom(s, before, i) == None
    ensures Run(s, before, after, i) == s && Passes(s, before, after, i) == 0
  {
  }

  lemma OnePass(s: string, before: string, after: string, i: nat, at: nat)
    requires FirstFrom(s, before, i) == Some(at)
    ensures Run(s, before, after, i) == Run(Splice(s, at, |before|, after), before, after, at + |after| - |before| + 1)
    ensures Passes(s, before, after, i)
         == 1 + Passes(Splice(s, at, |before|, after), before, after, at + |after| - |before| + 1)
  {
  }

  // ----- the reference: replace the first occurrence and go on with the remaining text

  function Simple(s: string, before: string, after: string): string {
    if before == "" then
      if s == "" then after else after + [s[0]] + Simple(s[1..], before, after)
    else if |s| < |before| then s
    else if before <= s then after + Simple(s[|before|..], before, after)
    else [s[0]] + Simple(s[1..], before, after)
  }

  /** No nonempty proper prefix of `before` ends `after`. */
  predicate NoOverlap(before: string, after: string) {
    forall j :: 0 < j < |before| && j <= |after| ==> after[|after| - j..] != before[..j]
  }

  /** When the loop computes the reference on every text. */
  predicate Safe(before: string, after: string) {
    || before == after
    || before == ""
    || (|before| <= |after| + 1 && NoOverlap(before, after))
  }

  lemma OccursInTail(s: string, pattern: string, k: nat, q: nat)
    requires k <= |s|
    ensures OccursAt(s[k..], pattern, q) <==> OccursAt(s, pattern, k + q)
  {
    if k + q + |pattern| <= |s| {
      assert s[k..][q..q + |pattern|] == s[k + q..k + q + |pattern|];
    }
  }

  lemma OccursAtStart(s: string, pattern: string)
    ensures OccursAt(s, pattern, 0) <==> pattern <= s
  {
  }

  lemma {:induction false} SimpleBeforeFirst(s: string, before: string, after: string, q: nat)
    requires before != "" && q + |before| <= |s| && forall k :: 0 <= k < q ==> !OccursAt(s, before, k)
    ensures Simple(s, before, after) == s[..q] + Simple(s[q..], before, after)
  {
    if q == 0 {
      assert s[0..] == s;
    } else {
      OccursAtStart(s, before);
      forall k | 0 <= k < q - 1 ensures !OccursAt(s[1..], before, k) {
        OccursInTail(s, before, 1, k);
      }
      SimpleBeforeFirst(s[1..], before, after, q - 1);
      SkipHead(s, before, after, q);
    }
  }

  lemma SkipHead(s: string, before: string, after: string, q: nat)
    requires 0 < q <= |s|
    ensures [s[0]] + (s[1..][..q - 1] + Simple(s[1..][q - 1..], before, after))
         == s[..q] + Simple(s[q..], before, after)
  {
    assert s[1..][q - 1..] == s[q..];
    assert [s[0]] + s[1..][..q - 1] == s[..q];
  }

  lemma {:induction false} SimpleNoOccurrence(s: string, before: string, after: string)
    requires before != "" && forall k :: 0 <= k ==> !OccursAt(s, before, k)
    ensures Simple(s, before, after) == s
  {
    if |s| >= |before| {
      OccursAtStart(s, before);
      forall k | 0 <= k ensures !OccursAt(s[1..], before, k) {
        OccursInTail(s, before, 1, k);
      }
      SimpleNoOccurrence(s[1..], before, after);
    }
  }

  /** The reference, one occurrence at a time. */
  lemma SimpleFirst(s: string, before: string, after: string, q: nat)
    requires before != "" && FirstFrom(s, before, 0) == Some(q)
    ensures Simple(s, before, after) == s[..q] + after + Simple(s[q + |before|..], before, after)
  {
    hide *;
    SimpleBeforeFirst(s, before, after, q);
    OccursInTail(s, before, q, 0);
    SimpleAtStart(s[q..], before, after);
    assert s[q..][|before|..] == s[q + |before|..];
    Regroup(s[..q], after, Simple(s[q + |before|..], before, after));
  }

  lemma SimpleAtStart(s: string, before: string, after: string)
    requires before != "" && OccursAt(s, before, 0)
    ensures Simple(s, before, after) == after + Simple(s[|before|..], before, after)
  {
    OccursAtStart(s, before);
  }

  lemma Regroup(a: string, b: string, c: string)
    ensures a + (b + c) == a + b + c
  {
  }

  // ----- safe pairs

  /** Searching from inside the finished part `done` finds what searching in `rest` finds. */
  lemma SearchFromDone(done: string, rest: string, pattern: string, i: nat)
    requires i <= |done| && forall q :: i <= q < |done| ==> !OccursAt(done + rest, pattern, q)
    ensures FirstFrom(done + rest, pattern, i)
         == match FirstFrom(rest, pattern, 0) case None => None case Some(q) => Some(|done| + q)
  {
    var s, here := done + rest, FirstFrom(rest, pattern, 0);
    assert s[|done|..] == rest;
    if here.Some? { OccursInTail(s, pattern, |done|, here.value); }
    var found := FirstFrom(s, pattern, i);
    if found.Some? {
      assert found.value >= |done|;
      OccursInTail(s, pattern, |done|, found.value - |done|);
    }
  }

  /** Nothing occurs across the end of an inserted copy of `after`. */
  lemma NothingAcross(text: string, rest: string, before: string, after: string, q: int)
    requires 0 < |before| <= |after| + 1 && NoOverlap(before, after)
    requires |text| + |after| - |before| + 1 <= q < |text| + |after|
    ensures !OccursAt(text + after + rest, before, q)
  {
    var j, s := |text| + |after| - q, text + after + rest;
    assert s[q..q + j] == after[|after| - j..];
    assert before[..j] != s[q..q + j];
    assert q + |before| <= |s| ==> s[q..q + |before|][..j] == s[q..q + j];
  }

  /** From a cursor inside the finished part, with nothing left to find there, the loop finishes the rest. */
  lemma {:induction false} RunFinishesRest(done: string, rest: string, before: string, after: string, i: nat)
    requires 0 < |before| <= |after| + 1 && NoOverlap(before, after)
    requires i <= |done| && forall q :: i <= q < |done| ==> !OccursAt(done + rest, before, q)
    ensures Run(done + rest, before, after, i) == done + Simple(rest, before, after)
    decreases |rest|
  {
    hide OccursAt, FirstFrom;
    SearchFromDone(done, rest, before, i);
    var here := FirstFrom(rest, before, 0);
    if here == None {
      SimpleNoOccurrence(rest, before, after);
    } else {
      var q := here.value;
      var text, rest' := done + rest[..q], rest[q + |before|..];
      var done', i' := text + after, |done| + q + |after| - |before| + 1;
      forall k | i' <= k < |done'| ensures !OccursAt(done' + rest', before, k) {
        NothingAcross(text, rest', before, after, k);
      }
      RunFinishesRest(done', rest', before, after, i');
      OneReplacement(done, rest, before, after, i, q);
    }
  }

  lemma OneReplacement(done: string, rest: string, before: string, after: string, i: nat, q: nat)
    requires before != "" && FirstFrom(rest, before, 0) == Some(q)
    requires FirstFrom(done + rest, before, i) == Some(|done| + q)
    requires Run(done + rest[..q] + after + rest[q + |before|..], before, after,
                 |done| + q + |after| - |before| + 1)
          == done + rest[..q] + after + Simple(rest[q + |before|..], before, after)
    ensures Run(done + rest, before, after, i) == done + Simple(rest, before, after)
  {
    hide *;
    SpliceRest(done, rest, q, |before|, after);
    OnePass(done + rest, before, after, i, |done| + q);
    SimpleRest(done, rest, before, after, q);
  }

  lemma SpliceRest(done: string, rest: string, q: nat, n: nat, t: string)
    requires q + n <= |rest|
    ensures Splice(done + rest, |done| + q, n, t) == done + rest[..q] + t + rest[q + n..]
  {
    assert (done + rest)[..|done| + q] == done + rest[..q];
    assert (done + rest)[|done| + q + n..] == rest[q + n..];
  }

  lemma SimpleRest(done: string, rest: string, before: string, after: string, q: nat)
    requires before != "" && FirstFrom(rest, before, 0) == Some(q)
    ensures done + rest[..q] + after + Simple(rest[q + |before|..], before, after)
         == done + Simple(rest, before, after)
  {
    var tail := Simple(rest[q + |before|..], before, after);
    SimpleFirst(rest, before, after, q);
    assert done + rest[..q] + after + tail == done + (rest[..q] + after + tail);
  }

  /** An empty `before` is found everywhere: the insertions interleave with the text. */
  lemma {:induction false} RunInserts(done: string, rest: string, after: string)
    ensures Run(done + rest, "", after, |done|) == done + Simple(rest, "", after)
    decreases |rest|
  {
    var s := done + rest;
    assert OccursAt(s, "", |done|);
    assert Splice(s, |done|, 0, after) == done + after + rest;
    if rest == "" {
      assert FirstFrom(done + after + rest, "", |done| + |after| + 1) == None;
    } else {
      var done' := done + after + [rest[0]];
      assert done + after + rest == done' + rest[1..];
      RunInserts(done', rest[1..], after);
      assert done' + Simple(rest[1..], "", after) == done + Simple(rest, "", after);
    }
  }

  lemma {:induction false} RunIdentity(s: string, before: string, i: int)
    ensures Run(s, before, before, i) == s
    decreases if 0 <= i <= |s| then |s| - i + 1 else 0
  {
    hide FirstFrom, OccursAt, Splice, Run;
    if i >= 0 && FirstFrom(s, before, i).Some? {
      var at := FirstFrom(s, before, i).value;
      OnePass(s, before, before, i, at);
      SpliceSame(s, before, at);
      RunIdentity(s, before, at + 1);
    } else {
      NoPass(s, before, before, i);
    }
  }

  lemma SpliceSame(s: string, before: string, at: nat)
    requires OccursAt(s, before, at)
    ensures Splice(s, at, |before|, before) == s
  {
  }

  lemma {:induction false} SimpleIdentity(s: string, before: string)
    ensures Simple(s, before, before) == s
  {
    if before == "" {
      if s != "" { SimpleIdentity(s[1..], before); }
    } else if |s| >= |before| {
      if before <= s { SimpleIdentity(s[|before|..], before); } else { SimpleIdentity(s[1..], before); }
    }
  }

  lemma SafeIsSimple(s: string, before: string, after: string)
    requires Safe(before, after)
    ensures Replaced(s, before, after) == Simple(s, before, after)
  {
    if before == after {
      RunIdentity(s, before, 0);
      SimpleIdentity(s, before);
    } else if before == "" {
      RunInserts([], s, after);
      assert [] + s == s;
    } else {
      RunFinishesRest([], s, before, after, 0);
      assert [] + s == s;
    }
  }

  /** A single character is always replaced as expected, whatever it is replaced by. */
  lemma SingleCharacter(s: string, before: string, after: string)
    requires |before| == 1
    ensures Replaced(s, before, after) == Simple(s, before, after)
  {
    SafeIsSimple(s, before, after);
  }

  // ----- unsafe pairs

  /** The first position at which two different strings of equal length differ. */
  function FirstDifference(a: string, b: string): (t: nat)
    requires |a| == |b| && a != b
    ensures t < |a| && a[..t] == b[..t] && a[t] != b[t]
  {
    if a[0] != b[0] then 0
    else
      var t := FirstDifference(a[1..], b[1..]) + 1;
      assert a[..t] == [a[0]] + a[1..][..t - 1];
      assert b[..t] == [b[0]] + b[1..][..t - 1];
      t
  }

  /** With strings of equal length, a later pass never touches what lies before its first difference. */
  lemma {:induction false} RunKeepsPrefix(s: string, before: string, after: string, i: nat, x: nat)
    requires |before| == |after| && before != after
    requires x < i + FirstDifference(before, after) && x < |s|
    ensures |Run(s, before, after, i)| == |s| && Run(s, before, after, i)[x] == s[x]
    decreases if 0 <= i <= |s| then |s| - i + 1 else 0
  {
    hide FirstFrom, OccursAt, Splice, Run, Passes, FirstDifference;
    if FirstFrom(s, before, i).Some? {
      var at := FirstFrom(s, before, i).value;
      var s' := Splice(s, at, |before|, after);
      OnePass(s, before, after, i, at);
      SpliceKeeps(s, before, after, at, x);
      RunKeepsPrefix(s', before, after, at + 1, x);
    } else {
      NoPass(s, before, after, i);
    }
  }

  lemma SplicedAt(s: string, before: string, after: string, at: nat, t: nat)
    requires OccursAt(s, before, at) && t < |before| == |after|
    ensures Splice(s, at, |before|, after)[at + t] == after[t] && s[at + t] == before[t]
  {
    assert s[at..at + |before|][t] == s[at + t];
  }

  lemma SpliceKeeps(s: string, before: string, after: string, at: nat, x: nat)
    requires |before| == |after| && before != after && OccursAt(s, before, at)
    requires at <= |s| - |before| && x < at + FirstDifference(before, after) && x < |s|
    ensures Splice(s, at, |before|, after)[x] == s[x]
  {
    hide FirstDifference, OccursAt, Splice;
    var t := FirstDifference(before, after);
    if x >= at {
      SplicedAt(s, before, after, at, x - at);
      assert before[..t][x - at] == after[..t][x - at];
    } else {
      SpliceBefore(s, at, |before|, after, x);
    }
  }

  lemma SpliceBefore(s: string, at: nat, n: nat, t: string, x: nat)
    requires x < at && at + n <= |s|
    ensures Splice(s, at, n, t)[x] == s[x]
  {
  }

  /** With strings of equal length, a pass that happens leaves a mark. */
  lemma PassChangesText(s: string, before: string, after: string, i: nat)
    requires |before| == |after| && before != after && FirstFrom(s, before, i).Some?
    ensures Run(s, before, after, i) != s
  {
    hide FirstFrom, OccursAt, Splice, Run, FirstDifference;
    var at, t := FirstFrom(s, before, i).value, FirstDifference(before, after);
    var s' := Splice(s, at, |before|, after);
    OnePass(s, before, after, i, at);
    SplicedAt(s, before, after, at, t);
    RunKeepsPrefix(s', before, after, at + 1, at + t);
  }

  /** When `after` is much shorter than `before`, an occurrence at the very start wraps the cursor
      and ends the loop: of two adjacent occurrences only the first is replaced. */
  lemma WrapMissesSecond(before: string, after: string)
    requires |before| > |after| + 1
    ensures Replaced(before + before, before, after) == after + before
    ensures Simple(before + before, before, after) == after + after
  {
    var s := before + before;
    ReplaceAtStart(before, after, before, s, after + before);
    assert s[|before|..] == before;
    assert before[|before|..] == "";
    assert Simple(before, before, after) == after + Simple("", before, after);
  }

  /** When a prefix of `before` ends `after`, the inserted text and what follows it can form a new
      occurrence, and the loop replaces that one too. */
  lemma OverlapReplacesTwice(before: string, after: string, j: nat, s: string, s': string)
    requires 0 < j < |before| <= |after| + 1 && j <= |after| && before != after
    requires after[|after| - j..] == before[..j]
    requires s == before + before[j..] && s' == after + before[j..]
    ensures Simple(s, before, after) == s'
    ensures Replaced(s, before, after) != s'
  {
    hide *;
    SimpleOverlap(before, after, j);
    OccursAcross(before, after, j);
    ReplaceAtStart(before, after, before[j..], s, s');
    TwoPasses(s, s', before, after, |after| - j);
  }

  lemma TwoPasses(s: string, s': string, before: string, after: string, at: nat)
    requires before != after && 0 <= |after| - |before| + 1 <= at && OccursAt(s', before, at)
    requires Replaced(s, before, after) == Run(s', before, after, |after| - |before| + 1)
    ensures Replaced(s, before, after) != s'
  {
    PassShows(s', before, after, |after| - |before| + 1, at);
  }

  /** A pass that happens changes the text. */
  lemma PassShows(s: string, before: string, after: string, i: nat, at: nat)
    requires before != after && i <= at && OccursAt(s, before, at)
    ensures Run(s, before, after, i) != s
  {
    hide *;
    assert FirstFrom(s, before, i).Some?;
    if |before| == |after| {
      PassChangesText(s, before, after, i);
    } else {
      SecondPass(s, before, after, i);
    }
  }

  lemma ReplaceAtStart(before: string, after: string, tail: string, s: string, s': string)
    requires s == before + tail && s' == after + tail
    ensures Replaced(s, before, after) == Run(s', before, after, |after| - |before| + 1)
  {
    FoundAtStart(before, tail);
    SpliceStart(before, after, tail);
    FirstPass(s, before, after, s');
  }

  lemma FirstPass(s: string, before: string, after: string, s': string)
    requires FirstFrom(s, before, 0) == Some(0) && s' == Splice(s, 0, |before|, after)
    ensures Replaced(s, before, after) == Run(s', before, after, |after| - |before| + 1)
  {
  }

  lemma FoundAtStart(before: string, tail: string)
    ensures FirstFrom(before + tail, before, 0) == Some(0)
  {
    assert OccursAt(before + tail, before, 0);
  }

  lemma SpliceStart(before: string, after: string, tail: string)
    ensures Splice(before + tail, 0, |before|, after) == after + tail
  {
  }

  lemma SimpleOverlap(before: string, after: string, j: nat)
    requires 0 < j < |before|
    ensures Simple(before + before[j..], before, after) == after + before[j..]
  {
    var s := before + before[j..];
    assert before <= s;
    assert s[|before|..] == before[j..];
    assert Simple(before[j..], before, after) == before[j..];
  }

  lemma OccursAcross(before: string, after: string, j: nat)
    requires 0 < j < |before| && j <= |after| && after[|after| - j..] == before[..j]
    ensures OccursAt(after + before[j..], before, |after| - j)
  {
    var s := after + before[j..];
    assert s[|after| - j..|s|] == before[..j] + before[j..];
    assert before[..j] + before[j..] == before;
  }

  /** With strings of different length, a pass that happens changes the length. */
  lemma SecondPass(s: string, before: string, after: string, i: nat)
    requires |before| != |after| && FirstFrom(s, before, i).Some?
    ensures |Run(s, before, after, i)| != |s|
  {
    hide *;
    OnePass(s, before, after, i, FirstFrom(s, before, i).value);
    PassesCount(s, before, after, i);
    OneMoreTimes(Passes(s, before, after, i) - 1, |after| - |before|);
  }

  lemma UnsafeWitness(before: string, after: string) returns (s: string)
    requires !Safe(before, after)
    ensures Replaced(s, before, after) != Simple(s, before, after)
    ensures |s| <= 2 * |before|
  {
    if |before| > |after| + 1 {
      WrapMissesSecond(before, after);
      s := before + before;
    } else {
      var j :| 0 < j < |before| && j <= |after| && after[|after| - j..] == before[..j];
      s := before + before[j..];
      OverlapReplacesTwice(before, after, j, s, after + before[j..]);
    }
  }

  /** The loop computes the reference on every text exactly for the safe pairs. */
  lemma SimpleExactlyWhenSafe(before: string, after: string)
    ensures Safe(before, after) <==> forall s :: Replaced(s, before, after) == Simple(s, before, after)
  {
    if Safe(before, after) {
      forall s ensures Replaced(s, before, after) == Simple(s, before, after) {
        SafeIsSimple(s, before, after);
      }
    } else {
      var s := UnsafeWitness(before, after);
    }
  }

  // ----- the method

  lemma ReplacedIsRun(s: string, before: string, after: string)
    ensures Replaced(s, before, after) == Run(s, before, after, 0)
  {
  }

  /** A wrapped cursor lies past the end of every string, so nothing is found from it. */
  lemma FromCursor(s: string, pattern: string, cursor: int)
    requires |s| <= MAX_STRING && 0 <= MAX_STRING + cursor && cursor <= MAX_STRING + 1
    ensures FirstFrom(s, pattern, cursor % WORD) == if cursor < 0 then None else FirstFrom(s, pattern, cursor)
  {
    assert cursor % WORD == if cursor < 0 then cursor + WORD else cursor;
  }

  lemma AfterNone(s: string, before: string, after: string)
    ensures After(s, before, after, 0, 0) == (s, 0)
  {
  }

  /** A text that grows past the limit in one pass ends past the limit. */
  lemma OutgrowsLimit(s: string, before: string, after: string, i: nat)
    requires FirstFrom(s, before, i).Some? && |s| <= MAX_STRING < |s| - |before| + |after|
    ensures |Run(s, before, after, i)| > MAX_STRING
  {
    hide *;
    OnePass(s, before, after, i, FirstFrom(s, before, i).value);
    PassesCount(s, before, after, i);
    var n, d := Passes(s, before, after, i), |after| - |before|;
    assert n * d >= d by { AtLeastOnce(n, d); }
  }

  lemma AtLeastOnce(n: nat, d: nat)
    requires n >= 1
    ensures n * d >= d
  {
  }

  /** `text` is what `k` passes make of `s`: all of them, or, when an exception was thrown, those before
      the first one that would outgrow std::string. */
  ghost predicate StoppedAfter(s: string, before: string, after: string, text: string, thrown: bool, k: nat) {
    && k <= Passes(s, before, after, 0)
    && text == After(s, before, after, 0, k).0 && |text| < 0x8000_0000_0000_0000
    && if thrown then k < Passes(s, before, after, 0) && |text| - |before| + |after| >= 0x8000_0000_0000_0000
       else k == Passes(s, before, after, 0)
  }

  /** Replaces in place. When the text would outgrow std::string, the exception leaves the text as the
      last successful pass made it. */
  method ReplaceAll(src: StdString, oldValue: string, newValue: string) returns (thrown: bool)
    requires |src.text| < 0x8000_0000_0000_0000
    requires |oldValue| < 0x8000_0000_0000_0000 && |newValue| < 0x8000_0000_0000_0000
    modifies src
    ensures thrown <==> |Replaced(old(src.text), oldValue, newValue)| >= 0x8000_0000_0000_0000
    ensures !thrown ==> src.text == Replaced(old(src.text), oldValue, newValue)
    ensures exists k: nat :: StoppedAfter(old(src.text), oldValue, newValue, src.text, thrown, k)
  {
    hide Run, Passes, After, Replaced, FirstFrom, OccursAt, Splice;
    ghost var s, k := src.text, 0;
    AfterNone(s, oldValue, newValue);
    var i: size_t := 0;
    ghost var cursor := 0;
    while true
      invariant |src.text| <= MAX_STRING
      invariant -|oldValue| <= cursor <= |src.text| + 1 && i == cursor % WORD
      invariant k <= Passes(s, oldValue, newValue, 0)
      invariant After(s, oldValue, newValue, 0, k) == (src.text, cursor)
      decreases |src.text| - cursor + 1
    {
      FromCursor(src.text, oldValue, cursor);
      AfterOneMore(s, oldValue, newValue, 0, k, src.text, cursor);
      ReplacedIsRun(s, oldValue, newValue);
      i := src.Find(oldValue, i);
      if i == MARKER {
        NoPass(src.text, oldValue, newValue, cursor);
        assert StoppedAfter(s, oldValue, newValue, src.text, false, k);
        return false;
      }
      OnePass(src.text, oldValue, newValue, cursor, i);
      thrown := src.Replace(i, |oldValue|, newValue);
      if thrown {
        OutgrowsLimit(src.text, oldValue, newValue, cursor);
        assert StoppedAfter(s, oldValue, newValue, src.text, true, k);
        return;
      }
      k := k + 1;
      cursor := i + |newValue| - |oldValue| + 1;
      i := (i + |newValue| - |oldValue| + 1) % WORD;
    }
  }
}
