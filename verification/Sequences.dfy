/** Facts about duplicate-free sequences that several components share. */
module Sequences {

  ghost predicate NoDuplicates<T>(s: seq<T>) {
    forall i, j :: 0 <= i < j < |s| ==> s[i] != s[j]
  }

  function Elements<T>(s: seq<T>): set<T> {
    set x | x in s
  }

  /** `s` without the first occurrence of `x`. */
  function Without<T(==)>(s: seq<T>, x: T): seq<T> {
    if s == [] then []
    else if s[0] == x then s[1..]
    else [s[0]] + Without(s[1..], x)
  }

  lemma {:induction false} WithoutAt<T>(s: seq<T>, k: nat)
    requires NoDuplicates(s) && k < |s|
    ensures Without(s, s[k]) == s[..k] + s[k + 1..]
  {
    if k == 0 {
    } else {
      assert s[0] != s[k];
      WithoutAt(s[1..], k - 1);
      assert [s[0]] + (s[1..][..k - 1] + s[1..][k..]) == s[..k] + s[k + 1..];
    }
  }

  lemma {:induction false} WithoutAbsent<T>(s: seq<T>, x: T)
    requires x !in s
    ensures Without(s, x) == s
  {
    if s != [] {
      WithoutAbsent(s[1..], x);
    }
  }

  lemma {:induction false} WithoutSubset<T>(s: seq<T>, x: T)
    ensures forall y :: y in Without(s, x) ==> y in s
  {
    if s != [] {
      WithoutSubset(s[1..], x);
    }
  }

  /** Where an element sits in a sequence after the one at `k` has gone to the back. */
  lemma MovedAt<T>(s: seq<T>, k: nat)
    requires NoDuplicates(s) && k < |s|
    ensures var moved := Without(s, s[k]) + [s[k]];
            && |moved| == |s|
            && moved[|s| - 1] == s[k]
            && (forall i :: 0 <= i < k ==> moved[i] == s[i])
            && (forall i :: k <= i < |s| - 1 ==> moved[i] == s[i + 1])
  {
    WithoutAt(s, k);
  }

  lemma MovedNoDuplicates<T>(s: seq<T>, x: T)
    requires NoDuplicates(s)
    ensures NoDuplicates(Without(s, x) + [x])
    ensures x !in Without(s, x)
    ensures x in s ==> |Without(s, x)| == |s| - 1
    ensures x !in s ==> Without(s, x) == s
  {
    if x in s {
      var k :| 0 <= k < |s| && s[k] == x;
      MovedAt(s, k);
      var moved := Without(s, x) + [x];
      forall i, j | 0 <= i < j < |moved| ensures moved[i] != moved[j] {
        var i' := if i < k then i else i + 1;
        if j == |s| - 1 {
          assert s[i'] != s[k];
        } else {
          var j' := if j < k then j else j + 1;
          assert s[i'] != s[j'];
        }
      }
      assert forall i :: 0 <= i < |moved| - 1 ==> moved[i] != moved[|moved| - 1];
      assert Without(s, x) == moved[..|moved| - 1];
    } else {
      WithoutAbsent(s, x);
    }
  }

  lemma MoveLast<T>(s: seq<T>)
    requires NoDuplicates(s) && s != []
    ensures Without(s, s[|s| - 1]) + [s[|s| - 1]] == s
  {
    MovedAt(s, |s| - 1);
  }

  lemma MovedElements<T>(s: seq<T>, x: T)
    requires NoDuplicates(s)
    ensures Elements(Without(s, x) + [x]) == Elements(s) + {x}
  {
    if x in s {
      var k :| 0 <= k < |s| && s[k] == x;
      WithoutAt(s, k);
      SplitElements(s, k);
      assert Elements(Without(s, x) + [x]) == Elements(s[..k]) + Elements(s[k + 1..]) + {x};
    } else {
      WithoutAbsent(s, x);
    }
  }

  lemma SplitElements<T>(s: seq<T>, k: nat)
    requires k < |s|
    ensures Elements(s) == Elements(s[..k]) + {s[k]} + Elements(s[k + 1..])
  {
    assert s == s[..k] + ([s[k]] + s[k + 1..]);
  }

  lemma {:induction false} NoDuplicatesCount<T>(s: seq<T>)
    requires NoDuplicates(s)
    ensures |Elements(s)| == |s|
  {
    if s == [] {
      assert Elements(s) == {};
    } else {
      NoDuplicatesCount(s[1..]);
      assert Elements(s) == Elements(s[1..]) + {s[0]};
    }
  }

  lemma {:induction false} ElementsBound<T>(s: seq<T>)
    ensures |Elements(s)| <= |s|
  {
    if s == [] {
      assert Elements(s) == {};
    } else {
      ElementsBound(s[1..]);
      assert Elements(s) == Elements(s[1..]) + {s[0]};
    }
  }

  lemma SubsetCount<T>(a: set<T>, b: set<T>)
    requires a <= b
    ensures |a| <= |b|
    ensures |a| == |b| ==> a == b
  {
    assert b == a + (b - a);
    assert a !! b - a;
  }
}
