/** What the recency list and its counter mean after a prefix `s` of the input has been read,
    for the pattern `p`. Nothing here mentions the linked list. */
module Recency {
  import opened Sequences

  /** The distinct pattern characters that occur in `s`. */
  function Seen(s: string, p: string): set<char> {
    set c | c in s && c in p
  }

  /** The pattern characters of `s`, in the order met, with repetitions. */
  function Met(s: string, p: string): string {
    if s == [] then []
    else
      var met := Met(s[..|s| - 1], p);
      if s[|s| - 1] in p then met + [s[|s| - 1]] else met
  }

  /** One when the first two pattern characters met are equal, else zero. */
  function Extra(s: string, p: string): (e: nat) {
    var met := Met(s, p);
    if |met| >= 2 && met[0] == met[1] then 1 else 0
  }

  /** The pattern characters seen, least recently seen first. */
  function LeastRecent(s: string, p: string): string {
    if s == [] then []
    else
      var c, before := s[|s| - 1], LeastRecent(s[..|s| - 1], p);
      if c in p then Without(before, c) + [c] else before
  }

  /** The position of the last occurrence of `c`. */
  function LastIndex(s: string, c: char): (i: nat)
    requires c in s
    ensures i < |s| && s[i] == c && c !in s[i + 1..]
  {
    if s[|s| - 1] == c then |s| - 1
    else
      assert forall k :: 0 <= k < |s| && s[k] == c ==> s[..|s| - 1][k] == c;
      var i := LastIndex(s[..|s| - 1], c);
      assert s[i + 1..] == s[..|s| - 1][i + 1..] + [s[|s| - 1]];
      i
  }

  /** The list holds exactly the characters seen, each once. */
  lemma {:induction false} LeastRecentHoldsSeen(s: string, p: string)
    ensures NoDuplicates(LeastRecent(s, p))
    ensures Elements(LeastRecent(s, p)) == Seen(s, p)
    ensures |LeastRecent(s, p)| == |Seen(s, p)|
  {
    if s == [] {
      assert Seen(s, p) == {};
    } else {
      var c, s' := s[|s| - 1], s[..|s| - 1];
      LeastRecentHoldsSeen(s', p);
      assert s == s' + [c];
      assert Seen(s, p) == Seen(s', p) + if c in p then {c} else {};
      MovedNoDuplicates(LeastRecent(s', p), c);
      MovedElements(LeastRecent(s', p), c);
    }
    NoDuplicatesCount(LeastRecent(s, p));
  }

  lemma SeenInBoth(s: string, p: string, i: nat)
    requires i < |LeastRecent(s, p)|
    ensures LeastRecent(s, p)[i] in s && LeastRecent(s, p)[i] in p
  {
    LeastRecentHoldsSeen(s, p);
    assert LeastRecent(s, p)[i] in Elements(LeastRecent(s, p));
  }

  /** The list is in strictly increasing order of last occurrence. */
  lemma {:induction false} LeastRecentOrdered(s: string, p: string, i: nat, j: nat)
    requires i < j < |LeastRecent(s, p)|
    ensures LeastRecent(s, p)[i] in s && LeastRecent(s, p)[j] in s
    ensures LastIndex(s, LeastRecent(s, p)[i]) < LastIndex(s, LeastRecent(s, p)[j])
  {
    SeenInBoth(s, p, i);
    SeenInBoth(s, p, j);
    var c, s' := s[|s| - 1], s[..|s| - 1];
    var before, r := LeastRecent(s', p), LeastRecent(s, p);
    if c !in p {
      SeenInBoth(s, p, i);
      SeenInBoth(s, p, j);
      LeastRecentOrdered(s', p, i, j);
    } else {
      LeastRecentHoldsSeen(s', p);
      LeastRecentHoldsSeen(s, p);
      assert r[|r| - 1] == c && r[i] != c;
      if j < |r| - 1 {
        var k := if c in before then (var k :| 0 <= k < |before| && before[k] == c; k) else |before|;
        if c in before { MovedAt(before, k); } else { WithoutAbsent(before, c); }
        var i', j' := if i < k then i else i + 1, if j < k then j else j + 1;
        assert r[i] == before[i'] && r[j] == before[j'];
        LeastRecentOrdered(s', p, i', j');
        assert r[j] != c;
      }
    }
  }

  /** Where the shortest window that ends at the end of `s` and holds all the characters seen begins. */
  function FrontStart(s: string, p: string): (i: nat)
    ensures i <= |s|
  {
    if LeastRecent(s, p) == [] then |s|
    else
      SeenInBoth(s, p, 0);
      LastIndex(s, LeastRecent(s, p)[0])
  }

  ghost predicate Holds(w: string, cs: set<char>) {
    forall c :: c in cs ==> c in w
  }

  /** A suffix of `s` holds all the characters seen exactly when it begins at or before `FrontStart`. */
  lemma FrontStartIsTight(s: string, p: string, i: nat)
    requires i <= |s|
    ensures Holds(s[i..], Seen(s, p)) <==> i <= FrontStart(s, p)
  {
    var r := LeastRecent(s, p);
    LeastRecentHoldsSeen(s, p);
    if r != [] {
      SeenInBoth(s, p, 0);
      var f := LastIndex(s, r[0]);
      if i <= f {
        forall c | c in Seen(s, p) ensures c in s[i..] {
          assert c in Elements(r);
          var k :| 0 <= k < |r| && r[k] == c;
          if k > 0 { LeastRecentOrdered(s, p, 0, k); }
          assert s[i..][LastIndex(s, c) - i] == c;
        }
      } else {
        assert r[0] in Elements(r);
        assert s[i..] == s[f + 1..][i - f - 1..];
      }
    } else {
      assert Elements(r) == {};
    }
  }
}
